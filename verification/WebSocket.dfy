/** WebSocket frames as the agent's client writes and reads them (RFC 6455, sections 5.2 and 5.3). */
module WebSocket {
  import opened Numbers

  // ----- Bytes -----

  /** Exclusive or, bit by bit from the lowest. */
  function XorBits(a: nat, b: nat): nat
    decreases a + b
  {
    if a == 0 && b == 0 then 0 else (a % 2 + b % 2) % 2 + 2 * XorBits(a / 2, b / 2)
  }

  lemma {:induction false} XorBitsBound(a: nat, b: nat, n: nat)
    requires a < Pow2(n) && b < Pow2(n)
    ensures XorBits(a, b) < Pow2(n)
  {
    if n > 0 { XorBitsBound(a / 2, b / 2, n - 1); }
  }

  lemma Halves(bit: nat, high: nat)
    requires bit < 2
    ensures (bit + 2 * high) % 2 == bit && (bit + 2 * high) / 2 == high
  {
  }

  lemma BitTwice(a: nat, b: nat)
    requires a < 2 && b < 2
    ensures ((a + b) % 2 + b) % 2 == a
  {
  }

  lemma XorStep(a: nat, b: nat)
    ensures XorBits(a, b) % 2 == (a % 2 + b % 2) % 2 && XorBits(a, b) / 2 == XorBits(a / 2, b / 2)
  {
    Halves((a % 2 + b % 2) % 2, XorBits(a / 2, b / 2));
  }

  lemma SameHalves(a: nat, b: nat)
    requires a % 2 == b % 2 && a / 2 == b / 2
    ensures a == b
  {
  }

  lemma {:induction false} XorBitsTwice(a: nat, b: nat)
    ensures XorBits(XorBits(a, b), b) == a
    decreases a + b
  {
    if a != 0 || b != 0 {
      XorBitsTwice(a / 2, b / 2);
      var x := XorBits(a, b);
      XorStep(a, b);
      XorStep(x, b);
      FlippedBack(a, b, x, XorBits(x, b));
    }
  }

  lemma FlippedBack(a: nat, b: nat, x: nat, y: nat)
    requires x % 2 == (a % 2 + b % 2) % 2 && y % 2 == (x % 2 + b % 2) % 2 && y / 2 == a / 2
    ensures y == a
  {
    BitTwice(a % 2, b % 2);
    SameHalves(y, a);
  }

  /** A bit of it is set exactly when that bit differs. */
  lemma {:induction false} XorDiffers(a: nat, b: nat, i: nat)
    ensures BitByHalving(XorBits(a, b), i) == 1 <==> BitByHalving(a, i) != BitByHalving(b, i)
    decreases i
  {
    XorStep(a, b);
    if i > 0 { XorDiffers(a / 2, b / 2, i - 1); }
  }

  function Xor(a: Byte, b: Byte): Byte {
    assert Pow2(8) == 256;
    XorBitsBound(a, b, 8);
    XorBits(a, b)
  }

  /** Unmasking a masked byte gives it back. */
  lemma XorTwice(a: Byte, b: Byte)
    ensures Xor(Xor(a, b), b) == a
  {
    XorBitsTwice(a, b);
  }

  /** A mask key: four bytes. */
  type Mask = m: seq<Byte> | |m| == 4 witness [0, 0, 0, 0]

  /** The masking of section 5.3. */
  function Masked(payload: seq<Byte>, key: Mask): seq<Byte> {
    seq(|payload|, i requires 0 <= i < |payload| => Xor(payload[i], key[i % 4]))
  }

  lemma MaskedTwice(payload: seq<Byte>, key: Mask)
    ensures Masked(Masked(payload, key), key) == payload
  {
    forall i | 0 <= i < |payload| ensures Masked(Masked(payload, key), key)[i] == payload[i] {
      XorTwice(payload[i], key[i % 4]);
    }
  }

  /** The k low bytes of n, most significant first. */
  function BigEndian(n: nat, k: nat): (s: seq<Byte>)
    ensures |s| == k
  {
    if k == 0 then [] else BigEndian(n / 256, k - 1) + [n % 256]
  }

  function FromBigEndian(s: seq<Byte>): nat {
    if s == [] then 0 else 256 * FromBigEndian(s[..|s| - 1]) + s[|s| - 1]
  }

  function Pow256(k: nat): nat {
    if k == 0 then 1 else 256 * Pow256(k - 1)
  }

  lemma {:induction false} BigEndianRoundTrip(n: nat, k: nat)
    requires n < Pow256(k)
    ensures FromBigEndian(BigEndian(n, k)) == n
  {
    if k > 0 { BigEndianRoundTrip(n / 256, k - 1); }
  }

  /** n without its i low bytes. */
  function DropBytes(n: nat, i: nat): nat {
    if i == 0 then n else DropBytes(n / 256, i - 1)
  }

  lemma {:induction false} BigEndianStep(n: nat, k: nat, i: nat)
    requires i < k
    ensures BigEndian(n, k)[..k - 1 - i] + [DropBytes(n, i) % 256] == BigEndian(n, k)[..k - i]
  {
    if i > 0 {
      BigEndianStep(n / 256, k - 1, i - 1);
      assert BigEndian(n, k)[..k - i] == BigEndian(n / 256, k - 1)[..k - i];
      assert BigEndian(n, k)[..k - 1 - i] == BigEndian(n / 256, k - 1)[..k - 1 - i];
    }
  }

  // ----- Frames -----

  const FIN: nat := 128
  const MASKED: nat := 128

  /** FIN | opcode: the high bit is set, the other bits are the opcode's. */
  function FirstByte(opcode: Byte): Byte {
    if opcode < FIN then FIN + opcode else opcode
  }

  /** The payload length in its shortest form: 7 bits, 16 bits or 64 bits. */
  function LengthBytes(n: nat): seq<Byte> {
    if n <= 125 then [MASKED + n]
    else if n <= 65535 then [MASKED + 126] + BigEndian(n, 2)
    else [MASKED + 127] + BigEndian(n, 8)
  }

  /** The frame of a client: FIN, masked, one fragment. */
  function ClientFrame(opcode: Byte, payload: seq<Byte>, key: Mask): seq<Byte> {
    [FirstByte(opcode)] + LengthBytes(|payload|) + key + Masked(payload, key)
  }

  /** The length of a slice is an int: no payload is longer, and making a longer one panics. */
  const MAX_INT: nat := 0x7FFF_FFFF_FFFF_FFFF

  datatype ReadResult = Eof | Panic | Frame(opcode: nat, payload: seq<Byte>, used: nat)

  /** How many extended length bytes follow a 7-bit length code. */
  function Extended(code: nat): nat {
    if code == 126 then 2 else if code == 127 then 8 else 0
  }

  function KeyLength(h1: Byte): nat {
    if h1 >= MASKED then 4 else 0
  }

  function PayloadLength(s: seq<Byte>): nat
    requires |s| >= 2 && |s| >= 2 + Extended(s[1] % 128)
  {
    var code := s[1] % 128;
    if Extended(code) == 0 then code else FromBigEndian(s[2..2 + Extended(code)])
  }

  /** The frame at the head of a byte stream, masked or not; Eof when the stream ends inside it. The
      payload is allocated once header and key are read, before any byte of it. */
  function ParseFrame(s: seq<Byte>): ReadResult {
    if |s| < 2 || |s| < 2 + Extended(s[1] % 128) then Eof
    else
      var n := PayloadLength(s);
      var keyAt := 2 + Extended(s[1] % 128);
      var at := keyAt + KeyLength(s[1]);
      if |s| < at then Eof
      else if n > MAX_INT then Panic
      else if |s| < at + n then Eof
      else
        var data := s[at..at + n];
        Frame(s[0] % 16, if KeyLength(s[1]) == 4 then Masked(data, s[keyAt..at]) else data, at + n)
  }

  lemma LongLength(n: nat, k: nat, h0: Byte, code: nat, rest: seq<Byte>)
    requires n < Pow256(k) && k == Extended(code) && k > 0 && code < 128
    ensures var s := [h0] + ([MASKED + code] + BigEndian(n, k)) + rest;
            s[1] == MASKED + code && PayloadLength(s) == n
  {
    var s := [h0] + ([MASKED + code] + BigEndian(n, k)) + rest;
    assert s[2..2 + k] == BigEndian(n, k);
    BigEndianRoundTrip(n, k);
  }

  lemma LengthRoundTrip(n: nat, h0: Byte, rest: seq<Byte>)
    requires n < Pow256(8)
    ensures var s := [h0] + LengthBytes(n) + rest;
            && s[1] >= MASKED && |LengthBytes(n)| == 1 + Extended(s[1] % 128) && PayloadLength(s) == n
  {
    if n > 65535 {
      LongLength(n, 8, h0, 127, rest);
    } else if n > 125 {
      assert Pow256(2) == 65536;
      LongLength(n, 2, h0, 126, rest);
    } else {
      ShortLength(n, h0, rest);
    }
  }

  lemma ShortLength(n: nat, h0: Byte, rest: seq<Byte>)
    requires n <= 125
    ensures var s := [h0] + [MASKED + n] + rest;
            s[1] == MASKED + n && Extended(s[1] % 128) == 0 && PayloadLength(s) == n
  {
  }

  /** Where the mask key starts. */
  function KeyAt(s: seq<Byte>): nat
    requires |s| >= 2
  {
    2 + Extended(s[1] % 128)
  }

  /** The parse in the order of the reads: once the key is read, the payload. */
  lemma ParsePayload(s: seq<Byte>, at: nat)
    requires |s| >= 2 && |s| >= at == KeyAt(s) + KeyLength(s[1])
    ensures var n := PayloadLength(s);
            && (ParseFrame(s).Panic? <==> n > MAX_INT) && (ParseFrame(s).Frame? <==> n <= MAX_INT && n <= |s| - at)
            && (ParseFrame(s).Frame? ==> ParseFrame(s).opcode == s[0] % 16 && ParseFrame(s).used == at + n)
  {
  }

  lemma PayloadRead(s: seq<Byte>, at: nat, n: nat)
    requires |s| >= 2 && |s| >= at == KeyAt(s) + KeyLength(s[1])
    requires n == PayloadLength(s) && ParseFrame(s).Frame?
    ensures at + n <= |s| && s[at..][n..] == s[at + n..]
    ensures ParseFrame(s).payload
            == if KeyLength(s[1]) == 4 then Masked(s[at..][..n], s[KeyAt(s)..at]) else s[at..][..n]
  {
    SliceOfRest(s, at, n);
  }

  lemma SliceOfRest<T>(s: seq<T>, at: nat, n: nat)
    requires at + n <= |s|
    ensures s[at..][..n] == s[at..at + n] && s[at..][n..] == s[at + n..]
  {
  }

  /** The parts of a byte string that starts with a header, a key and some data. */
  lemma Parts<T>(s: seq<T>, header: seq<T>, key: seq<T>, data: seq<T>, rest: seq<T>)
    requires s == header + key + data + rest
    ensures s == header + (key + data + rest)
    ensures s[|header|..|header| + |key|] == key
    ensures s[|header| + |key|..|header| + |key| + |data|] == data
  {
  }

  lemma ParseMasked(s: seq<Byte>, keyAt: nat, payload: seq<Byte>, key: Mask)
    requires |s| >= 2 && keyAt == 2 + Extended(s[1] % 128) && keyAt + 4 + |payload| <= |s|
    requires s[1] >= MASKED && PayloadLength(s) == |payload| <= MAX_INT
    requires s[keyAt..keyAt + 4] == key
    requires s[keyAt + 4..keyAt + 4 + |payload|] == Masked(payload, key)
    ensures ParseFrame(s) == Frame(s[0] % 16, payload, keyAt + 4 + |payload|)
  {
    var at, n := keyAt + 4, |payload|;
    MaskedTwice(payload, key);
    ParsePayload(s, at);
    PayloadRead(s, at, n);
    SliceOfRest(s, at, n);
  }

  lemma HeaderFirst(s: seq<Byte>, opcode: Byte, n: nat, rest: seq<Byte>)
    requires n < Pow256(8) && s == [FirstByte(opcode)] + LengthBytes(n) + rest
    ensures |s| >= 2 && s[0] % 16 == opcode % 16 && s[1] >= MASKED && PayloadLength(s) == n
    ensures 1 + |LengthBytes(n)| == 2 + Extended(s[1] % 128)
  {
    LengthRoundTrip(n, FirstByte(opcode), rest);
  }

  /** What a client frame decodes to, whatever follows it in the stream. */
  lemma DecodeOne(opcode: Byte, payload: seq<Byte>, key: Mask, rest: seq<Byte>)
    requires |payload| <= MAX_INT
    ensures var frame := ClientFrame(opcode, payload, key);
            ParseFrame(frame + rest) == Frame(opcode % 16, payload, |frame|)
  {
    var header, data := [FirstByte(opcode)] + LengthBytes(|payload|), Masked(payload, key);
    var s := ClientFrame(opcode, payload, key) + rest;
    Parts(s, header, key, data, rest);
    HeaderFirst(s, opcode, |payload|, key + data + rest);
    ParseMasked(s, |header|, payload, key);
  }

  /** The opcode survives exactly when it fits its four bits. */
  lemma OpcodeFits(opcode: Byte, payload: seq<Byte>, key: Mask)
    requires |payload| <= MAX_INT
    ensures ParseFrame(ClientFrame(opcode, payload, key)).Frame?
    ensures ParseFrame(ClientFrame(opcode, payload, key)).opcode == opcode <==> opcode < 16
  {
    DecodeOne(opcode, payload, key, []);
    assert ClientFrame(opcode, payload, key) + [] == ClientFrame(opcode, payload, key);
  }

  /** A stream cut inside a frame is never read as a frame. */
  lemma TruncatedIsEof(opcode: Byte, payload: seq<Byte>, key: Mask, cut: nat)
    requires |payload| <= MAX_INT && cut < |ClientFrame(opcode, payload, key)|
    ensures ParseFrame(ClientFrame(opcode, payload, key)[..cut]) == Eof
  {
    var frame := ClientFrame(opcode, payload, key);
    var s := frame[..cut];
    assert frame == [FirstByte(opcode)] + LengthBytes(|payload|) + (key + Masked(payload, key));
    LengthRoundTrip(|payload|, FirstByte(opcode), key + Masked(payload, key));
    if 2 <= |s| && 2 + Extended(s[1] % 128) <= |s| {
      assert s[2..2 + Extended(s[1] % 128)] == frame[2..2 + Extended(s[1] % 128)];
    }
  }

  lemma {:induction false} BigEndianBound(s: seq<Byte>)
    ensures FromBigEndian(s) < Pow256(|s|)
  {
    if s != [] { BigEndianBound(s[..|s| - 1]); }
  }

  /** No masked frame that reads as a payload of this length is shorter. */
  lemma ShortestForm(opcode: Byte, payload: seq<Byte>, key: Mask, s: seq<Byte>)
    requires ParseFrame(s).Frame? && s[1] >= MASKED && |ParseFrame(s).payload| == |payload|
    ensures |ClientFrame(opcode, payload, key)| <= ParseFrame(s).used
  {
    var code := s[1] % 128;
    if code == 126 {
      BigEndianBound(s[2..4]);
      assert Pow256(2) == 65536;
    }
  }

  /** The number a byte string weighs, byte by byte: the first of k has weight 256 to the k - 1. */
  function Weight(s: seq<Byte>): nat {
    if s == [] then 0 else s[0] * Pow256(|s| - 1) + Weight(s[1..])
  }

  lemma {:induction false} WeightOfLast(s: seq<Byte>, b: Byte)
    ensures Weight(s + [b]) == 256 * Weight(s) + b
  {
    if s == [] {
      assert [b][1..] == [] && Weight([b]) == b * Pow256(0) + Weight([]);
    } else {
      WeightOfLast(s[1..], b);
      assert (s + [b])[1..] == s[1..] + [b];
      assert s[0] * Pow256(|s|) == 256 * (s[0] * Pow256(|s| - 1));
    }
  }

  lemma {:induction false} BigEndianWeighs(s: seq<Byte>)
    ensures FromBigEndian(s) == Weight(s)
  {
    if s != [] {
      BigEndianWeighs(s[..|s| - 1]);
      WeightOfLast(s[..|s| - 1], s[|s| - 1]);
      assert s == s[..|s| - 1] + [s[|s| - 1]];
    }
  }

  /** How long the header of a masked frame is before the key, and what its length bytes say. */
  ghost predicate Announces(s: seq<Byte>, n: nat, keyAt: nat) {
    |s| >= keyAt >= 2 &&
    match keyAt
    case 2 => s[1] % 128 == n && n <= 125
    case 4 => s[1] % 128 == 126 && Weight(s[2..4]) == n
    case 10 => s[1] % 128 == 127 && Weight(s[2..10]) == n
    case _ => false
  }

  /** Byte j is the payload's where the bits of the key are not set, and its opposite where they are. */
  ghost predicate MaskedBy(b: Byte, raw: Byte, key: Byte) {
    forall i: nat :: Bit(b, i) == 1 <==> Bit(raw, i) != Bit(key, i)
  }

  lemma MaskedBits(payload: seq<Byte>, key: Mask, j: nat)
    requires j < |payload|
    ensures MaskedBy(Masked(payload, key)[j], payload[j], key[j % 4])
  {
    forall i: nat ensures Bit(Masked(payload, key)[j], i) == 1 <==> Bit(payload[j], i) != Bit(key[j % 4], i) {
      BitIsByHalving(payload[j], i);
      BitIsByHalving(key[j % 4], i);
      BitIsByHalving(Xor(payload[j], key[j % 4]), i);
      XorDiffers(payload[j], key[j % 4], i);
    }
  }

  lemma LengthAnnounced(n: nat, h0: Byte, rest: seq<Byte>)
    requires n < Pow256(8)
    ensures var s := [h0] + LengthBytes(n) + rest;
            Announces(s, n, 1 + |LengthBytes(n)|) && s[0] == h0 && s[1] >= 128
  {
    var s := [h0] + LengthBytes(n) + rest;
    LengthRoundTrip(n, h0, rest);
    BigEndianWeighs(s[2..1 + |LengthBytes(n)|]);
  }

  /** A client frame byte by byte: the high bit set over the opcode; the mask bit over the length in its
      shortest form, most significant byte first; and the key. */
  lemma FrameHeader(opcode: Byte, payload: seq<Byte>, key: Mask)
    requires |payload| <= MAX_INT
    ensures var f, n := ClientFrame(opcode, payload, key), |payload|;
            var keyAt := if n <= 125 then 2 else if n <= 65535 then 4 else 10;
            && |f| == keyAt + 4 + n && Announces(f, n, keyAt) && f[1] >= 128
            && f[0] == (if opcode < 128 then 128 + opcode else opcode)
            && f[keyAt..keyAt + 4] == key && f[keyAt + 4..] == Masked(payload, key)
  {
    var header, data := [FirstByte(opcode)] + LengthBytes(|payload|), Masked(payload, key);
    SplitInThree(header, key, data);
    LengthAnnounced(|payload|, FirstByte(opcode), key + data);
  }

  lemma SplitInThree<T>(header: seq<T>, key: seq<T>, data: seq<T>)
    ensures var f := header + key + data;
            && f == header + (key + data) && f[|header|..|header| + |key|] == key
            && f[|header| + |key|..] == data
  {
  }

  /** And the payload, each bit flipped exactly where the key's is set. */
  lemma FramePayload(opcode: Byte, payload: seq<Byte>, key: Mask, j: nat)
    requires |payload| <= MAX_INT && j < |payload|
    ensures var f := ClientFrame(opcode, payload, key);
            MaskedBy(f[|f| - |payload| + j], payload[j], key[j % 4])
  {
    FrameHeader(opcode, payload, key);
    var f := ClientFrame(opcode, payload, key);
    ElementFrom(f, |f| - |payload|, j);
    MaskedBits(payload, key, j);
  }

  lemma AnnouncedIsRead(s: seq<Byte>, keyAt: nat, n: nat)
    requires |s| >= 2
    ensures Announces(s, n, keyAt) <==> |s| >= KeyAt(s) == keyAt && PayloadLength(s) == n
  {
    if |s| >= KeyAt(s) { BigEndianWeighs(s[2..KeyAt(s)]); }
  }

  /** What the reader makes of a byte string: a frame if and only if a header that announces a payload is
      there, the key, the payload, and it fits a slice; the opcode are the low four bits of the first
      byte. */
  lemma FrameRead(s: seq<Byte>, keyAt: nat, n: nat)
    requires Announces(s, n, keyAt)
    ensures var at := keyAt + if s[1] >= 128 then 4 else 0;
            && (ParseFrame(s).Frame? <==> |s| >= at + n && n <= MAX_INT)
            && (ParseFrame(s).Frame? ==> ParseFrame(s).opcode == s[0] % 16 && ParseFrame(s).used == at + n)
  {
    AnnouncedIsRead(s, keyAt, n);
    if |s| >= KeyAt(s) + KeyLength(s[1]) { ParsePayload(s, KeyAt(s) + KeyLength(s[1])); }
  }

  /** Without such a header it is no frame. */
  lemma NotAnnouncedIsEof(s: seq<Byte>)
    requires forall n: nat, keyAt: nat :: !Announces(s, n, keyAt)
    ensures ParseFrame(s) == Eof
  {
    if |s| >= 2 && |s| >= KeyAt(s) { AnnouncedIsRead(s, KeyAt(s), PayloadLength(s)); }
  }

  /** The payload read is what was sent, each bit flipped where the key's is set if the mask bit is. */
  lemma PayloadBits(s: seq<Byte>, keyAt: nat, n: nat, j: nat)
    requires Announces(s, n, keyAt) && ParseFrame(s).Frame? && j < n
    ensures var at := keyAt + if s[1] >= 128 then 4 else 0;
            && |s| >= at + n && |ParseFrame(s).payload| == n
            && if s[1] >= 128 then MaskedBy(ParseFrame(s).payload[j], s[at + j], s[keyAt + j % 4])
               else ParseFrame(s).payload[j] == s[at + j]
  {
    AnnouncedIsRead(s, keyAt, n);
    FrameRead(s, keyAt, n);
    var at := keyAt + if s[1] >= 128 then 4 else 0;
    PayloadRead(s, at, n);
    ElementOfRest(s, at, n, j);
    if s[1] >= 128 { KeyOfRest(s, keyAt, s[at..][..n], j); }
  }

  lemma ElementFrom<T>(s: seq<T>, at: nat, j: nat)
    requires at + j < |s|
    ensures s[at..][j] == s[at + j]
  {
  }

  lemma ElementOfRest<T>(s: seq<T>, at: nat, n: nat, j: nat)
    requires at + n <= |s| && j < n
    ensures s[at..][..n][j] == s[at + j]
  {
  }

  lemma KeyOfRest(s: seq<Byte>, keyAt: nat, data: seq<Byte>, j: nat)
    requires keyAt + 4 <= |s| && j < |data|
    ensures MaskedBy(Masked(data, s[keyAt..keyAt + 4])[j], data[j], s[keyAt + j % 4])
  {
    var key: Mask := s[keyAt..keyAt + 4];
    MaskedBits(data, key, j);
    assert key[j % 4] == s[keyAt + j % 4];
  }

  datatype Message = Message(opcode: Byte, payload: seq<Byte>, key: Mask)

  function Stream(ms: seq<Message>): seq<Byte> {
    if ms == [] then [] else ClientFrame(ms[0].opcode, ms[0].payload, ms[0].key) + Stream(ms[1..])
  }

  /** Repeated reads: the frames found, and the bytes left when a read runs into the end. */
  function DecodeAll(s: seq<Byte>): (seq<(nat, seq<Byte>)>, seq<Byte>) {
    match ParseFrame(s)
    case Eof => ([], s)
    case Panic => ([], s)
    case Frame(opcode, payload, used) =>
      var (frames, left) := DecodeAll(s[used..]);
      ([(opcode, payload)] + frames, left)
  }

  lemma DecodeStep(s: seq<Byte>)
    requires ParseFrame(s).Frame?
    ensures var f, rest := ParseFrame(s), DecodeAll(s[ParseFrame(s).used..]);
            DecodeAll(s) == ([(f.opcode, f.payload)] + rest.0, rest.1)
  {
  }

  function Contents(ms: seq<Message>): seq<(nat, seq<Byte>)> {
    seq(|ms|, i requires 0 <= i < |ms| => (ms[i].opcode % 16, ms[i].payload))
  }

  lemma ContentsHead(ms: seq<Message>)
    requires ms != []
    ensures Contents(ms) == [(ms[0].opcode % 16, ms[0].payload)] + Contents(ms[1..])
  {
  }

  /** The round trip of any sequence of messages over one stream, which is used up. */
  lemma {:induction false} StreamRoundTrip(ms: seq<Message>)
    requires forall m :: m in ms ==> |m.payload| <= MAX_INT
    ensures DecodeAll(Stream(ms)) == (Contents(ms), [])
  {
    if ms == [] {
      assert Contents(ms) == [] && Stream(ms) == [];
    } else {
      var m, rest := ms[0], Stream(ms[1..]);
      var frame := ClientFrame(m.opcode, m.payload, m.key);
      DecodeOne(m.opcode, m.payload, m.key, rest);
      assert Stream(ms) == frame + rest && (frame + rest)[|frame|..] == rest;
      forall x | x in ms[1..] ensures x in ms {}
      StreamRoundTrip(ms[1..]);
      ContentsHead(ms);
      DecodeStep(frame + rest);
    }
  }

  // ----- The code -----

  /** WriteFrame, for a mask key drawn by the caller. */
  method WriteFrame(opcode: Byte, payload: seq<Byte>, key: Mask) returns (frame: seq<Byte>)
    ensures frame == ClientFrame(opcode, payload, key)
  {
    var n := |payload|;
    var header: seq<Byte> := [FirstByte(opcode)];
    if n <= 125 {
      header := header + [MASKED + n];
    } else if n <= 65535 {
      header := header + [MASKED + 126];
      header := header + [n / 256 % 256, n % 256];
      assert BigEndian(n, 1) == [] + [n % 256] && BigEndian(n / 256, 1) == [] + [n / 256 % 256];
      assert BigEndian(n, 2) == [n / 256 % 256, n % 256];
    } else {
      header := header + [MASKED + 127];
      var i := 8;
      while i > 0
        invariant 0 <= i <= 8
        invariant header == [FirstByte(opcode), MASKED + 127] + BigEndian(n, 8)[..8 - i]
      {
        i := i - 1;
        BigEndianStep(n, 8, i);
        header := header + [DropBytes(n, i) % 256];
      }
    }
    assert header == [FirstByte(opcode)] + LengthBytes(n);
    header := header + key;
    var masked: seq<Byte> := [];
    for i := 0 to n
      invariant masked == Masked(payload, key)[..i]
    {
      masked := masked + [Xor(payload[i], key[i % 4])];
    }
    frame := header + masked;
  }

  /** The buffered reader of a connection. */
  class Reader {
    const data: seq<Byte>
    var pos: nat

    ghost predicate Valid()
      reads this
    {
      pos <= |data|
    }

    function Rest(): seq<Byte>
      requires pos <= |data|
      reads this
    {
      data[pos..]
    }

    constructor (data: seq<Byte>)
      ensures Valid() && this.data == data && Rest() == data
    {
      this.data, pos := data, 0;
    }

    /** io.ReadFull: n bytes, or an error that may leave the reader anywhere. */
    method ReadFull(n: nat) returns (bytes: seq<Byte>, ok: bool)
      requires Valid()
      modifies this
      ensures Valid() && ok == (n <= |old(Rest())|)
      ensures ok ==> bytes == old(Rest())[..n] && Rest() == old(Rest())[n..] && pos == old(pos) + n
    {
      if |data| - pos < n {
        pos := |data|;
        return [], false;
      }
      bytes, ok := data[pos..pos + n], true;
      pos := pos + n;
    }

    /** The two first bytes and the extended length. */
    method ReadHeader() returns (opcode: nat, masked: bool, n: nat, ok: bool)
      requires Valid()
      modifies this
      ensures Valid()
      ensures var s := old(Rest());
              && ok == (|s| >= 2 && |s| >= 2 + Extended(s[1] % 128))
              && (ok ==> opcode == s[0] % 16 && masked == (s[1] >= MASKED) && n == PayloadLength(s)
                         && Rest() == s[2 + Extended(s[1] % 128)..] && pos == old(pos) + 2 + Extended(s[1] % 128))
    {
      opcode, masked, n, ok := 0, false, 0, false;
      ghost var s := Rest();
      var h0, h1, got;
      h0, got := ReadFull(1);
      if !got { return; }
      h1, got := ReadFull(1);
      if !got { return; }
      assert h0[0] == s[0] && h1[0] == s[1] && Rest() == s[2..];
      opcode, masked, n := h0[0] % 16, h1[0] >= MASKED, h1[0] % 128;
      if Extended(n) > 0 {
        var l;
        l, got := ReadFull(Extended(n));
        if !got { return; }
        assert l == s[2..2 + Extended(s[1] % 128)];
        n := FromBigEndian(l);
      }
      ok := true;
    }

    /** The mask key, when there is one. */
    method ReadKey(masked: bool) returns (key: seq<Byte>, ok: bool)
      requires Valid()
      modifies this
      ensures var s, n := old(Rest()), if masked then 4 else 0;
              && Valid() && ok == (n <= |s|) && |key| == 4
              && (ok ==> Rest() == s[n..] && pos == old(pos) + n && (masked ==> key == s[..4]))
    {
      key, ok := [0, 0, 0, 0], true;
      if masked {
        var bytes;
        bytes, ok := ReadFull(4);
        if ok { key := bytes; }
      }
    }

    /** The payload: allocated, read, unmasked. */
    method ReadPayload(n: nat, masked: bool, key: seq<Byte>) returns (payload: seq<Byte>, ok: bool, panics: bool)
      requires Valid() && |key| == 4
      modifies this
      ensures var s := old(Rest());
              && Valid() && panics == (n > MAX_INT) && ok == (!panics && n <= |s|)
              && (ok ==> Rest() == s[n..] && pos == old(pos) + n
                         && payload == if masked then Masked(s[..n], key) else s[..n])
    {
      payload, ok, panics := [], true, false;
      if n > 0 {
        if n > MAX_INT { return [], false, true; }
        payload, ok := ReadFull(n);
        if ok && masked { payload := Unmask(payload, key); }
      }
    }

    /** ReadFrame: the frame at the head of what is left, consumed whole; an error exactly when the
        stream ends inside it, a panic exactly when header and key are there and announce more bytes
        than a slice can hold. */
    method ReadFrame() returns (opcode: nat, payload: seq<Byte>, ok: bool, panics: bool)
      requires Valid()
      modifies this
      ensures Valid() && ok == ParseFrame(old(Rest())).Frame? && panics == ParseFrame(old(Rest())).Panic?
      ensures ok ==> pos >= old(pos) && ParseFrame(old(Rest())) == Frame(opcode, payload, pos - old(pos))
      ensures ok ==> Rest() == old(Rest())[pos - old(pos)..]
    {
      payload, panics := [], false;
      ghost var s := Rest();
      var masked, n;
      opcode, masked, n, ok := ReadHeader();
      if !ok { return; }
      ghost var at := KeyAt(s) + KeyLength(s[1]);
      var key;
      key, ok := ReadKey(masked);
      if !ok { return; }
      assert Rest() == s[at..] && (masked ==> key == s[KeyAt(s)..at]) by { SliceOfRest(s, KeyAt(s), at - KeyAt(s)); }
      ParsePayload(s, at);
      payload, ok, panics := ReadPayload(n, masked, key);
      if ok { PayloadRead(s, at, n); }
    }
  }

  /** The unmasking loop of ReadFrame. */
  method Unmask(raw: seq<Byte>, key: Mask) returns (payload: seq<Byte>)
    ensures payload == Masked(raw, key)
  {
    payload := raw;
    for i := 0 to |raw|
      invariant |payload| == |raw|
      invariant forall j :: 0 <= j < |raw| ==> payload[j] == if j < i then Masked(raw, key)[j] else raw[j]
    {
      payload := payload[i := Xor(payload[i], key[i % 4])];
    }
  }
}
