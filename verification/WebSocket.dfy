/** The frame codec of `WebSocketConn`, after sections 5.2 and 5.3 of RFC 6455. */
module WebSocket {
  import opened Bytes

  const TWO64 := 0x1_0000_0000_0000_0000

  /** `std::string::max_size`; a longer `reserve` throws. */
  const MAX_STRING := 0x7FFF_FFFF_FFFF_FFFF

  /** `Wait` and `Unmasked` are the `return false` exits, `TooLong` the exception of
      `reserve`; none of them consumes input. */
  datatype Parse = Wait | Unmasked | TooLong | Frame(payload: seq<byte>, rest: seq<byte>)

  /** The payload length and where the mask starts, once enough bytes are there. */
  datatype Header = Short | Header(len: nat, pos: nat)

  function ReadHeader(buf: seq<byte>): (h: Header)
    ensures h.Header? ==> 2 <= h.pos <= 10 && h.pos <= |buf|
  {
    if |buf| < 2 then Short
    else
      var len7 := buf[1] % 128;
      if len7 == 126 then (if |buf| < 4 then Short else Header(Value(buf[2..4]), 4))
      else if len7 == 127 then (if |buf| < 10 then Short else Header(Value(buf[2..10]), 10))
      else Header(len7, 2)
  }

  /** Payload octets with the mask applied cyclically; the same both ways. */
  function Mask(s: seq<byte>, key: seq<byte>): (r: seq<byte>)
    requires |key| == 4
    ensures |r| == |s|
  {
    seq(|s|, i requires 0 <= i < |s| => Xor(s[i], key[i % 4]))
  }

  /** `parseWebSocketFrame`; the size test is done in 64 bits, so it can wrap. */
  function ParseFrame(buf: seq<byte>): (r: Parse)
    ensures r.Frame? ==> |r.rest| < |buf|
  {
    match ReadHeader(buf)
    case Short => Wait
    case Header(len, pos) =>
      if buf[1] < 128 then Unmasked
      else if |buf| < (pos + 4 + len) % TWO64 then Wait
      else if len > MAX_STRING then TooLong
      else
        assert pos + 4 + len < TWO64;
        Frame(Mask(buf[pos + 4..pos + 4 + len], buf[pos..pos + 4]), buf[pos + 4 + len..])
  }

  // ---- masked frames from a client ----

  /** How a frame writes its length. */
  datatype Width = One | Three | Nine

  predicate Fits(w: Width, len: nat) {
    match w
    case One => len <= 125
    case Three => len <= 0xFFFF
    case Nine => len <= MAX_STRING
  }

  /** The length octets; `flag` is 128 for a masked frame and 0 otherwise. */
  function LengthOctets(w: Width, len: nat, flag: byte): (s: seq<byte>)
    requires Fits(w, len) && flag in {0, 128}
  {
    match w
    case One => [flag + len]
    case Three => [flag + 126] + BigEndian(len, 2)
    case Nine => [flag + 127] + BigEndian(len, 8)
  }

  /** A client frame: first octet (FIN, reserved bits, opcode), length form, mask, payload. */
  datatype ClientFrame = ClientFrame(first: byte, width: Width, key: seq<byte>, payload: seq<byte>)

  predicate WellFormed(f: ClientFrame) { |f.key| == 4 && Fits(f.width, |f.payload|) }

  function Encode(f: ClientFrame): (s: seq<byte>)
    requires WellFormed(f)
    ensures s != []
  {
    [f.first] + LengthOctets(f.width, |f.payload|, 128) + f.key + Mask(f.payload, f.key)
  }

  function EncodeAll(frames: seq<ClientFrame>): seq<byte>
    requires forall f :: f in frames ==> WellFormed(f)
  {
    if frames == [] then [] else Encode(frames[0]) + EncodeAll(frames[1..])
  }

  function Payloads(frames: seq<ClientFrame>): seq<seq<byte>> {
    if frames == [] then [] else [frames[0].payload] + Payloads(frames[1..])
  }

  lemma MaskTwice(s: seq<byte>, key: seq<byte>)
    requires |key| == 4
    ensures Mask(Mask(s, key), key) == s
  {
    forall i | 0 <= i < |s| ensures Mask(Mask(s, key), key)[i] == s[i] {
      XorTwice(s[i], key[i % 4]);
    }
  }

  /** Section 5.3: octet `i` is masked with octet `i` mod 4 of the key, bit by bit. */
  ghost predicate MaskedBy(plain: seq<byte>, key: seq<byte>, masked: seq<byte>)
    requires |key| == 4
  {
    |masked| == |plain| && forall i :: 0 <= i < |plain| ==> IsXor(plain[i], key[i % 4], masked[i])
  }

  lemma MaskIff(plain: seq<byte>, key: seq<byte>, masked: seq<byte>)
    requires |key| == 4
    ensures MaskedBy(plain, key, masked) <==> masked == Mask(plain, key)
  {
    hide IsXor, Xor;
    if |masked| == |plain| {
      forall i | 0 <= i < |plain| ensures IsXor(plain[i], key[i % 4], masked[i]) <==> masked[i] == Mask(plain, key)[i] {
        XorIff(plain[i], key[i % 4], masked[i]);
      }
    }
  }

  /** A client frame on the wire, said without `Mask`. */
  ghost predicate IsFrame(f: ClientFrame, s: seq<byte>)
    requires WellFormed(f)
  {
    var head := [f.first] + LengthOctets(f.width, |f.payload|, 128) + f.key;
    head <= s && MaskedBy(f.payload, f.key, s[|head|..])
  }

  /** Each frame has exactly one form on the wire, and `Encode` writes it. */
  lemma EncodeIff(f: ClientFrame, s: seq<byte>)
    requires WellFormed(f)
    ensures IsFrame(f, s) <==> s == Encode(f)
  {
    hide LengthOctets, Mask, MaskedBy;
    var head := [f.first] + LengthOctets(f.width, |f.payload|, 128) + f.key;
    if head <= s {
      MaskIff(f.payload, f.key, s[|head|..]);
      assert s == head + s[|head|..];
    }
    assert (head + Mask(f.payload, f.key))[|head|..] == Mask(f.payload, f.key);
  }

  /** The header reader undoes the length octets, in each of the three forms. */
  lemma HeaderOfLength(first: byte, w: Width, len: nat, flag: byte, more: seq<byte>)
    requires Fits(w, len) && flag in {0, 128}
    ensures var octets := LengthOctets(w, len, flag);
      ReadHeader([first] + octets + more) == Header(len, 1 + |octets|)
  {
    hide ReadHeader, BigEndian;
    PowersOf256();
    match w
    case One => HeaderOfOne(first, len, flag, more);
    case Three =>
      ValueOfBigEndian(len, 2);
      HeaderOfThree(first, flag, BigEndian(len, 2), more);
    case Nine =>
      ValueOfBigEndian(len, 8);
      HeaderOfNine(first, flag, BigEndian(len, 8), more);
  }

  lemma HeaderOfOne(first: byte, len: nat, flag: byte, more: seq<byte>)
    requires len <= 125 && flag in {0, 128}
    ensures ReadHeader([first] + [flag + len] + more) == Header(len, 2)
  {
  }

  lemma HeaderOfThree(first: byte, flag: byte, number: seq<byte>, more: seq<byte>)
    requires |number| == 2 && flag in {0, 128}
    ensures ReadHeader([first] + ([flag + 126] + number) + more) == Header(Value(number), 4)
  {
    hide Value;
    var buf := [first] + ([flag + 126] + number) + more;
    assert buf[1] == flag + 126;
    assert buf[2..4] == number;
  }

  lemma HeaderOfNine(first: byte, flag: byte, number: seq<byte>, more: seq<byte>)
    requires |number| == 8 && flag in {0, 128}
    ensures ReadHeader([first] + ([flag + 127] + number) + more) == Header(Value(number), 10)
  {
    hide Value;
    var buf := [first] + ([flag + 127] + number) + more;
    assert buf[1] == flag + 127;
    assert buf[2..10] == number;
  }

  lemma SecondOctet(first: byte, w: Width, len: nat, flag: byte, more: seq<byte>)
    requires Fits(w, len) && flag in {0, 128}
    ensures var buf := [first] + LengthOctets(w, len, flag) + more; buf[1] >= 128 <==> flag == 128
  {
  }

  lemma Slices(head: seq<byte>, key: seq<byte>, masked: seq<byte>, more: seq<byte>)
    ensures var buf, pos, end := head + key + masked + more, |head| + |key|, |head| + |key| + |masked|;
      buf[|head|..pos] == key && buf[pos..end] == masked && buf[end..] == more
  {
  }

  /** Parsing a frame followed by anything gives its payload and leaves the rest. */
  lemma ParseInvertsEncode(f: ClientFrame, more: seq<byte>)
    requires WellFormed(f)
    ensures ParseFrame(Encode(f) + more) == Frame(f.payload, more)
  {
    var octets, masked := LengthOctets(f.width, |f.payload|, 128), Mask(f.payload, f.key);
    var tail := f.key + masked + more;
    var buf := Encode(f) + more;
    HeaderOfLength(f.first, f.width, |f.payload|, 128, tail);
    SecondOctet(f.first, f.width, |f.payload|, 128, tail);
    hide LengthOctets, ReadHeader, Mask;
    assert buf == [f.first] + octets + tail;
    Slices([f.first] + octets, f.key, masked, more);
    assert buf == [f.first] + octets + f.key + masked + more;
    MaskTwice(f.payload, f.key);
  }

  /** Every strict prefix of a frame makes the parser wait. */
  lemma PrefixWaits(f: ClientFrame, k: nat)
    requires WellFormed(f) && k < |Encode(f)|
    ensures ParseFrame(Encode(f)[..k]) == Wait
  {
    var octets := LengthOctets(f.width, |f.payload|, 128);
    var tail := f.key + Mask(f.payload, f.key);
    assert Encode(f) == [f.first] + octets + tail;
    var cut := Encode(f)[..k];
    if k < 1 + |octets| {
      assert cut == ([f.first] + octets)[..k];
      hide Encode;
      PrefixOfHeader(f.first, f.width, |f.payload|, k);
    } else {
      var n := k - 1 - |octets|;
      assert cut == [f.first] + octets + tail[..n];
      hide Encode, LengthOctets, ParseFrame, Mask;
      ShortTailWaits(f.first, f.width, |f.payload|, tail[..n]);
    }
  }

  lemma ShortTailWaits(first: byte, w: Width, len: nat, tail: seq<byte>)
    requires Fits(w, len) && |tail| < 4 + len
    ensures ParseFrame([first] + LengthOctets(w, len, 128) + tail) == Wait
  {
    hide ReadHeader, LengthOctets, Mask;
    HeaderOfLength(first, w, len, 128, tail);
    SecondOctet(first, w, len, 128, tail);
  }

  lemma PrefixOfHeader(first: byte, w: Width, len: nat, k: nat)
    requires Fits(w, len) && k < 1 + |LengthOctets(w, len, 128)|
    ensures ReadHeader(([first] + LengthOctets(w, len, 128))[..k]) == Short
  {
    hide BigEndian, Value;
    var octets := LengthOctets(w, len, 128);
    if k >= 2 {
      assert ([first] + octets)[..k][1] == octets[0];
    }
  }

  /** The frame that a header and the bytes after it are. */
  ghost function FrameOf(buf: seq<byte>): (f: ClientFrame)
    requires ParseFrame(buf).Frame?
  {
    var h := ReadHeader(buf);
    var w := if h.pos == 2 then One else if h.pos == 4 then Three else Nine;
    ClientFrame(buf[0], w, buf[h.pos..h.pos + 4], ParseFrame(buf).payload)
  }

  lemma HeaderIsLength(buf: seq<byte>)
    requires ReadHeader(buf).Header? && ReadHeader(buf).len <= MAX_STRING
    ensures var h := ReadHeader(buf);
      var w := if h.pos == 2 then One else if h.pos == 4 then Three else Nine;
      Fits(w, h.len) && buf[..h.pos] == [buf[0]] + LengthOctets(w, h.len, if buf[1] >= 128 then 128 else 0)
  {
    var h := ReadHeader(buf);
    PowersOf256();
    hide Value, BigEndian, Pow256;
    if h.pos == 4 {
      BigEndianOfValue(buf[2..4]);
      assert buf[..4] == [buf[0]] + ([buf[1]] + buf[2..4]);
    } else if h.pos == 10 {
      BigEndianOfValue(buf[2..10]);
      assert buf[..10] == [buf[0]] + ([buf[1]] + buf[2..10]);
    } else {
      assert buf[..2] == [buf[0]] + [buf[1]];
    }
  }

  lemma FrameOfIs(buf: seq<byte>)
    requires ParseFrame(buf).Frame?
    ensures WellFormed(FrameOf(buf)) && Encode(FrameOf(buf)) + ParseFrame(buf).rest == buf
  {
    hide ReadHeader, LengthOctets, Mask;
    HeaderIsLength(buf);
    var h, f := ReadHeader(buf), FrameOf(buf);
    var pos, end := h.pos + 4, h.pos + 4 + h.len;
    MaskTwice(buf[pos..end], f.key);
    assert buf == buf[..h.pos] + buf[h.pos..pos] + buf[pos..end] + buf[end..];
  }

  /** The parser accepts exactly what starts with a masked frame in any of the three length
      forms; in particular an unmasked frame never gives a message. */
  lemma ParsesExactlyFrames(buf: seq<byte>, payload: seq<byte>, rest: seq<byte>)
    ensures ParseFrame(buf) == Frame(payload, rest) <==>
      exists f :: WellFormed(f) && f.payload == payload && Encode(f) + rest == buf
  {
    hide ParseFrame, Encode;
    if ParseFrame(buf) == Frame(payload, rest) {
      FrameOfIs(buf);
      assert FrameOf(buf).payload == payload;
    }
    if f: ClientFrame :| WellFormed(f) && f.payload == payload && Encode(f) + rest == buf {
      ParseInvertsEncode(f, rest);
    }
  }

  /** The size test wraps for announced lengths within 14 of 2^64: then, and only then, a
      buffer of possible size makes `reserve` throw. */
  lemma WrappedLengthThrows(buf: seq<byte>)
    requires |buf| <= MAX_STRING && ReadHeader(buf).Header?
    ensures ParseFrame(buf) == TooLong <==>
      buf[1] >= 128 && ReadHeader(buf).len + ReadHeader(buf).pos + 4 >= TWO64 &&
      ReadHeader(buf).len + ReadHeader(buf).pos + 4 - TWO64 <= |buf|
  {
    LengthIsBounded(buf);
    hide ReadHeader, Mask;
  }

  lemma LengthIsBounded(buf: seq<byte>)
    requires ReadHeader(buf).Header?
    ensures ReadHeader(buf).len < TWO64
  {
    PowersOf256();
    hide Value, Pow256;
    if |buf| >= 4 { BigEndianOfValue(buf[2..4]); }
    if |buf| >= 10 { BigEndianOfValue(buf[2..10]); }
  }

  // ---- streaming ----

  lemma HeaderIsStable(buf: seq<byte>, more: seq<byte>)
    requires ReadHeader(buf).Header?
    ensures ReadHeader(buf + more) == ReadHeader(buf)
  {
    hide Value;
    var all := buf + more;
    assert all[1] == buf[1];
    if |buf| >= 4 { assert all[2..4] == buf[2..4]; }
    if |buf| >= 10 { assert all[2..10] == buf[2..10]; }
  }

  /** A complete frame stays what it is when more bytes follow. */
  lemma FrameIsStable(buf: seq<byte>, more: seq<byte>)
    requires ParseFrame(buf).Frame?
    ensures ParseFrame(buf + more) == Frame(ParseFrame(buf).payload, ParseFrame(buf).rest + more)
  {
    hide ReadHeader, Mask;
    HeaderIsStable(buf, more);
    var h, all := ReadHeader(buf), buf + more;
    assert all[1] == buf[1];
    var pos, end := h.pos + 4, h.pos + 4 + h.len;
    assert all[h.pos..pos] == buf[h.pos..pos];
    assert all[pos..end] == buf[pos..end];
    assert all[end..] == buf[end..] + more;
  }

  /** Calling the parser until it gives no frame: the messages and what is left. */
  function Drain(buf: seq<byte>): (seq<seq<byte>>, seq<byte>)
    decreases |buf|
  {
    match ParseFrame(buf)
    case Frame(payload, rest) => var (messages, left) := Drain(rest); ([payload] + messages, left)
    case _ => ([], buf)
  }

  datatype Event = Append(chunk: seq<byte>) | Attempt

  /** The buffer and the messages after some reads and some parser calls, in any order. */
  function Run(events: seq<Event>): (seq<byte>, seq<seq<byte>>) {
    if events == [] then ([], [])
    else
      var (buf, messages) := Run(events[..|events| - 1]);
      match events[|events| - 1]
      case Append(chunk) => (buf + chunk, messages)
      case Attempt =>
        match ParseFrame(buf)
        case Frame(payload, rest) => (rest, messages + [payload])
        case _ => (buf, messages)
  }

  function Received(events: seq<Event>): seq<byte> {
    if events == [] then []
    else
      var e := events[|events| - 1];
      Received(events[..|events| - 1]) + (if e.Append? then e.chunk else [])
  }

  /** Draining now and then draining what more bytes bring is draining all at once. */
  lemma {:induction false} DrainAppend(buf: seq<byte>, more: seq<byte>)
    ensures var (messages, left) := Drain(buf);
      Drain(buf + more) == (messages + Drain(left + more).0, Drain(left + more).1)
    decreases |buf|
  {
    hide ParseFrame;
    if ParseFrame(buf).Frame? {
      FrameIsStable(buf, more);
      var r := ParseFrame(buf);
      assert |r.rest| < |buf|;
      DrainAppend(r.rest, more);
      var (messages, left) := Drain(r.rest);
      assert [r.payload] + (messages + Drain(left + more).0) == ([r.payload] + messages) + Drain(left + more).0;
    } else {
      assert [] + Drain(buf + more).0 == Drain(buf + more).0;
    }
  }

  /** However the bytes are cut into reads and whenever the parser is called, the messages
      so far and those still in the buffer are the messages of the whole input. */
  lemma {:induction false} ChunksDoNotMatter(events: seq<Event>)
    ensures var (buf, messages) := Run(events);
      Drain(Received(events)) == (messages + Drain(buf).0, Drain(buf).1)
  {
    hide ParseFrame;
    if events == [] {
      assert [] + Drain([]).0 == Drain([]).0;
    } else {
      var before, e := events[..|events| - 1], events[|events| - 1];
      ChunksDoNotMatter(before);
      var (buf, messages) := Run(before);
      match e
      case Append(chunk) =>
        hide Drain;
        DrainAppend(Received(before), chunk);
        DrainAppend(buf, chunk);
        var (d, left) := Drain(buf);
        assert (messages + d) + Drain(left + chunk).0 == messages + (d + Drain(left + chunk).0);
      case Attempt =>
        assert Received(before) + [] == Received(before);
        DrainOnce(buf, messages);
    }
  }

  lemma DrainOnce(buf: seq<byte>, messages: seq<seq<byte>>)
    ensures var r := ParseFrame(buf);
      r.Frame? ==>
        messages + Drain(buf).0 == (messages + [r.payload]) + Drain(r.rest).0 && Drain(buf).1 == Drain(r.rest).1
  {
    hide ParseFrame;
  }

  /** How many of the frames are complete within their first `n` bytes. */
  function Finished(frames: seq<ClientFrame>, n: nat): (k: nat)
    requires forall f :: f in frames ==> WellFormed(f)
    ensures k <= |frames|
  {
    if frames == [] || n < |Encode(frames[0])| then 0 else 1 + Finished(frames[1..], n - |Encode(frames[0])|)
  }

  /** The `n` bytes end inside or just before the frame after the finished ones. */
  lemma {:induction false} FinishedIs(frames: seq<ClientFrame>, n: nat)
    requires forall f :: f in frames ==> WellFormed(f)
    requires n <= |EncodeAll(frames)|
    ensures var k := Finished(frames, n);
      && |EncodeAll(frames[..k])| <= n
      && (if k < |frames| then n < |EncodeAll(frames[..k + 1])| else n == |EncodeAll(frames)|)
  {
    hide Encode;
    var k := Finished(frames, n);
    if frames != [] {
      var size := |Encode(frames[0])|;
      if n < size {
        assert frames[..1][1..] == [];
      } else {
        FinishedIs(frames[1..], n - size);
        assert frames[..k][1..] == frames[1..][..k - 1];
        assert k < |frames| ==> frames[..k + 1][1..] == frames[1..][..k];
      }
    }
  }

  /** Draining the first `n` bytes of some frames gives the payloads of the finished ones
      and leaves the bytes of the one that is cut. */
  lemma {:induction false} DrainOfPrefix(frames: seq<ClientFrame>, n: nat)
    requires forall f :: f in frames ==> WellFormed(f)
    requires n <= |EncodeAll(frames)|
    ensures var k := Finished(frames, n);
      && |EncodeAll(frames[..k])| <= n
      && Drain(EncodeAll(frames)[..n]) == (Payloads(frames[..k]), EncodeAll(frames)[|EncodeAll(frames[..k])|..n])
  {
    hide ParseFrame, Encode, Drain;
    var k := Finished(frames, n);
    if frames == [] {
      NothingToParse();
      DrainOfWait([]);
    } else {
      var first, rest := Encode(frames[0]), EncodeAll(frames[1..]);
      if n < |first| {
        assert (first + rest)[..n] == first[..n];
        PrefixWaits(frames[0], n);
        DrainOfWait(first[..n]);
      } else {
        var m := n - |first|;
        assert (first + rest)[..n] == first + rest[..m];
        DrainOfFirst(frames[0], rest[..m]);
        DrainOfPrefix(frames[1..], m);
        assert frames[..k][0] == frames[0] && frames[..k][1..] == frames[1..][..k - 1];
        CutBehind(first, rest, |EncodeAll(frames[1..][..k - 1])|, m);
      }
    }
  }

  lemma CutBehind(first: seq<byte>, rest: seq<byte>, i: nat, m: nat)
    requires i <= m <= |rest|
    ensures (first + rest)[|first| + i..|first| + m] == rest[i..m]
  {
  }

  lemma DrainOfWait(buf: seq<byte>)
    requires ParseFrame(buf) == Wait
    ensures Drain(buf) == ([], buf)
  {
  }

  lemma DrainOfFirst(f: ClientFrame, more: seq<byte>)
    requires WellFormed(f)
    ensures Drain(Encode(f) + more) == ([f.payload] + Drain(more).0, Drain(more).1)
  {
    hide ParseFrame, Encode;
    ParseInvertsEncode(f, more);
  }

  lemma NothingToParse()
    ensures ParseFrame([]) == Wait
  {
  }

  /** An unmasked header at the front. */
  predicate StartsUnmasked(buf: seq<byte>) { ReadHeader(buf).Header? && buf[1] < 128 }

  /** The mask bit of a complete header decides, whatever follows it. */
  lemma UnmaskedIff(buf: seq<byte>, more: seq<byte>)
    ensures ParseFrame(buf) == Unmasked <==> StartsUnmasked(buf)
    ensures StartsUnmasked(buf) ==> ParseFrame(buf + more) == Unmasked
  {
    hide ReadHeader, Mask;
    if ReadHeader(buf).Header? {
      HeaderIsStable(buf, more);
      assert (buf + more)[1] == buf[1];
    }
  }

  /** An unmasked frame is neither skipped nor refused: the masked frames before it are
      delivered, and no byte from there on ever is, whatever is read and however often the
      parser is called. */
  lemma UnmaskedBlocks(events: seq<Event>, frames: seq<ClientFrame>, rest: seq<byte>, more: seq<byte>)
    requires forall f :: f in frames ==> WellFormed(f)
    requires Received(events) == EncodeAll(frames) + (rest + more) && StartsUnmasked(rest)
    ensures var (buf, messages) := Run(events);
      messages + Drain(buf).0 == Payloads(frames) && Drain(buf).1 == rest + more
  {
    hide ParseFrame, Run, Received, EncodeAll, Payloads;
    ChunksDoNotMatter(events);
    DrainOfFrames(frames, rest + more);
    UnmaskedIff(rest, more);
    assert Drain(rest + more) == ([], rest + more);
  }

  lemma {:induction false} DrainOfFrames(frames: seq<ClientFrame>, more: seq<byte>)
    requires forall f :: f in frames ==> WellFormed(f)
    ensures Drain(EncodeAll(frames) + more) == (Payloads(frames) + Drain(more).0, Drain(more).1)
  {
    hide Encode, Drain;
    if frames == [] {
      assert EncodeAll(frames) + more == more && [] + Drain(more).0 == Drain(more).0;
    } else {
      var tail := EncodeAll(frames[1..]) + more;
      assert EncodeAll(frames) + more == Encode(frames[0]) + tail;
      DrainOfFirst(frames[0], tail);
      DrainOfFrames(frames[1..], more);
      var first, rest, last := [frames[0].payload], Payloads(frames[1..]), Drain(more).0;
      assert first + (rest + last) == (first + rest) + last;
    }
  }

  /** Streaming: while the bytes read are the beginning of a list of masked frames, the
      messages delivered are at any moment the first payloads in order and the buffer holds
      exactly the other finished frames and what came of the next one; once the parser
      finds no frame, all finished frames have been delivered. */
  lemma StreamingParse(events: seq<Event>, frames: seq<ClientFrame>)
    requires forall f :: f in frames ==> WellFormed(f)
    requires Received(events) <= EncodeAll(frames)
    ensures var (buf, messages) := Run(events);
      var n := |Received(events)|;
      var k := Finished(frames, n);
      && |EncodeAll(frames[..k])| <= n
      && (if k < |frames| then n < |EncodeAll(frames[..k + 1])| else n == |EncodeAll(frames)|)
      && messages + Drain(buf).0 == Payloads(frames[..k])
      && Drain(buf).1 == Received(events)[|EncodeAll(frames[..k])|..]
      && (!ParseFrame(buf).Frame? ==>
           messages == Payloads(frames[..k]) && buf == Received(events)[|EncodeAll(frames[..k])|..])
  {
    hide ParseFrame, Encode, EncodeAll, Run, Received;
    var n := |Received(events)|;
    FinishedIs(frames, n);
    ChunksDoNotMatter(events);
    DrainOfPrefix(frames, n);
    assert EncodeAll(frames)[..n] == Received(events);
    var (buf, messages) := Run(events);
    assert messages + [] == messages;
  }

  // ---- frames to the client ----

  /** The shortest form that section 5.2 of RFC 6455 requires for a length. */
  function MinimalWidth(len: nat): Width {
    if len <= 125 then One else if len <= 0xFFFF then Three else Nine
  }

  /** `sendTextFrame`: a final, unmasked text frame. */
  function EncodeText(message: seq<byte>): seq<byte>
    requires |message| <= MAX_STRING
  {
    [0x81] + LengthOctets(MinimalWidth(|message|), |message|, 0) + message
  }

  function EncodeTexts(messages: seq<seq<byte>>): seq<byte>
    requires forall m :: m in messages ==> |m| <= MAX_STRING
  {
    if messages == [] then []
    else EncodeTexts(messages[..|messages| - 1]) + EncodeText(messages[|messages| - 1])
  }

  /** Reference: a reader of server frames after section 5.2 of RFC 6455, which refuses
      masked frames and lengths that are not in their shortest form. */
  datatype Read = Stop | Text(first: byte, message: seq<byte>, rest: seq<byte>)

  function ReadText(buf: seq<byte>): (r: Read)
    ensures r.Text? ==> |r.rest| < |buf|
  {
    match ReadHeader(buf)
    case Short => Stop
    case Header(len, pos) =>
      if buf[1] >= 128 || |buf| < pos + len || pos != 2 + LengthSize(MinimalWidth(len)) then Stop
      else Text(buf[0], buf[pos..pos + len], buf[pos + len..])
  }

  /** Extra octets that a length form takes. */
  function LengthSize(w: Width): nat {
    match w
    case One => 0
    case Three => 2
    case Nine => 8
  }

  function ReadAll(buf: seq<byte>): (seq<seq<byte>>, seq<byte>)
    decreases |buf|
  {
    match ReadText(buf)
    case Text(0x81, message, rest) => var (messages, left) := ReadAll(rest); ([message] + messages, left)
    case _ => ([], buf)
  }

  lemma ReadInvertsText(message: seq<byte>, more: seq<byte>)
    requires |message| <= MAX_STRING
    ensures ReadText(EncodeText(message) + more) == Text(0x81, message, more)
  {
    var w := MinimalWidth(|message|);
    var octets := LengthOctets(w, |message|, 0);
    var tail := message + more;
    var buf := EncodeText(message) + more;
    assert buf == [0x81] + octets + tail;
    HeaderOfLength(0x81, w, |message|, 0, tail);
    SecondOctet(0x81, w, |message|, 0, tail);
    var pos := 1 + |octets|;
    assert pos == 2 + LengthSize(w);
    hide LengthOctets, ReadHeader;
    assert buf[pos..] == tail;
    assert buf[pos..pos + |message|] == tail[..|message|] == message;
    assert buf[pos + |message|..] == tail[|message|..] == more;
  }

  lemma {:induction false} ReadTexts(messages: seq<seq<byte>>, more: seq<byte>)
    requires forall m :: m in messages ==> |m| <= MAX_STRING
    ensures ReadAll(EncodeTexts(messages) + more) == (messages + ReadAll(more).0, ReadAll(more).1)
  {
    hide ReadText, EncodeText;
    if messages == [] {
      assert [] + more == more && [] + ReadAll(more).0 == ReadAll(more).0;
    } else {
      var front, m := messages[..|messages| - 1], messages[|messages| - 1];
      assert EncodeTexts(messages) + more == EncodeTexts(front) + (EncodeText(m) + more);
      ReadTexts(front, EncodeText(m) + more);
      ReadInvertsText(m, more);
      assert front + ([m] + ReadAll(more).0) == messages + ReadAll(more).0;
    }
  }

  /** Whatever list of messages is sent, the bytes appended to the write buffer are read
      back as exactly these messages with nothing left over. */
  lemma SentTextIsSelfDelimiting(messages: seq<seq<byte>>)
    requires forall m :: m in messages ==> |m| <= MAX_STRING
    ensures ReadAll(EncodeTexts(messages)) == (messages, [])
  {
    hide ReadText, EncodeText;
    ReadTexts(messages, []);
    assert EncodeTexts(messages) + [] == EncodeTexts(messages);
    NothingToRead();
    assert messages + [] == messages;
  }

  lemma NothingToRead()
    ensures ReadText([]) == Stop
  {
  }
}

/** The read and write buffers of `WebSocketConn` as an object. */
module WebSocketConns {
  import opened Bytes
  import opened WebSocket

  /** How `parseWebSocketFrame` ends. */
  datatype Result = Message(text: seq<byte>) | No | LengthError

  class WebSocketConn {
    var readBuf: seq<byte>
    var writeBuf: seq<byte>

    constructor ()
      ensures readBuf == [] && writeBuf == []
    {
      readBuf, writeBuf := [], [];
    }

    /** The effect of `read` on the buffer. */
    method Append(chunk: seq<byte>)
      modifies this`readBuf
      ensures readBuf == old(readBuf) + chunk
    {
      readBuf := readBuf + chunk;
    }

    /** The loop that reads the 64-bit length. */
    method ReadLength(data: seq<byte>, pos: nat, count: nat) returns (len: nat)
      requires pos + count <= |data|
      ensures len == Value(data[pos..pos + count])
    {
      len := 0;
      var i := 0;
      while i < count
        invariant 0 <= i <= count
        invariant len == Value(data[pos..pos + i])
      {
        len := len * 256 + data[pos + i];
        i := i + 1;
        assert data[pos..pos + i][..i - 1] == data[pos..pos + i - 1];
      }
    }

    /** The loop that unmasks the payload. */
    method Decode(encoded: seq<byte>, key: seq<byte>) returns (decoded: seq<byte>)
      requires |key| == 4
      ensures decoded == Mask(encoded, key) && MaskedBy(decoded, key, encoded)
    {
      decoded := [];
      var i := 0;
      while i < |encoded|
        invariant 0 <= i <= |encoded|
        invariant decoded == Mask(encoded, key)[..i]
      {
        decoded := decoded + [Xor(encoded[i], key[i % 4])];
        i := i + 1;
      }
      MaskTwice(encoded, key);
      MaskIff(decoded, key, encoded);
    }

    method ParseWebSocketFrame() returns (r: Result)
      modifies this`readBuf
      ensures match ParseFrame(old(readBuf))
        case Frame(payload, rest) => r == Message(payload) && readBuf == rest
        case TooLong => r == LengthError && readBuf == old(readBuf)
        case _ => r == No && readBuf == old(readBuf)
    {
      hide Mask, Value;
      var data := readBuf;
      if |data| < 2 { return No; }
      var masked := data[1] >= 128;
      var len: nat := data[1] % 128;
      var pos := 2;
      if len == 126 {
        if |data| < 4 { return No; }
        len := ReadLength(data, 2, 2);
        pos := 4;
      } else if len == 127 {
        if |data| < 10 { return No; }
        len := ReadLength(data, 2, 8);
        pos := 10;
      }
      if !masked { return No; }
      if |data| < (pos + 4 + len) % TWO64 { return No; }
      if len > MAX_STRING { return LengthError; }
      var decoded := Decode(data[pos + 4..pos + 4 + len], data[pos..pos + 4]);
      readBuf := data[pos + 4 + len..];
      return Message(decoded);
    }

    method SendTextFrame(message: seq<byte>)
      requires |message| <= MAX_STRING
      modifies this`writeBuf
      ensures writeBuf == old(writeBuf) + EncodeText(message)
    {
      hide BigEndian;
      var len := |message|;
      var frame: seq<byte> := [0x81];
      if len <= 125 {
        frame := frame + [len];
      } else if len <= 65535 {
        TwoOctets(len);
        frame := frame + [126] + [len / 256 % 256] + [len % 256];
      } else {
        var octets := LongLength(len);
        frame := frame + [127] + octets;
      }
      frame := frame + message;
      writeBuf := writeBuf + frame;
    }

    /** The loop that writes the 64-bit length, most significant octet first. */
    method LongLength(len: nat) returns (octets: seq<byte>)
      ensures octets == BigEndian(len, 8)
    {
      octets := [];
      var i := 7;
      while i >= 0
        invariant -1 <= i <= 7
        invariant octets == BigEndian(Shift(len, i + 1), 7 - i)
      {
        octets := octets + [Shift(len, i) % 256];
        ShiftByOne(len, i);
        i := i - 1;
      }
    }
  }

  lemma TwoOctets(n: nat)
    ensures BigEndian(n, 2) == [n / 256 % 256] + [n % 256]
  {
    assert BigEndian(n, 2) == BigEndian(n / 256, 1) + [n % 256];
    assert BigEndian(n / 256, 1) == BigEndian(n / 256 / 256, 0) + [n / 256 % 256];
  }

  /** `n >> (8 * i)`. */
  function Shift(n: nat, i: nat): nat {
    if i == 0 then n else Shift(n / 256, i - 1)
  }

  lemma {:induction false} ShiftByOne(n: nat, i: nat)
    ensures Shift(n, i + 1) == Shift(n, i) / 256
  {
    if i != 0 { ShiftByOne(n / 256, i - 1); }
  }
}
