/** The QUIC bridge's frames: audio stream frames, the handshake, and the length-prefixed
    control framing that carries them. */
module QuicFrames {
  import opened Words
  import opened BigEndian

  const CONTROL_HELLO: u8 := 0x01
  const CONTROL_AUDIO: u8 := 0x10
  const VERSION: u8 := 1
  const MAX_CONTROL_FRAME := 64 * 1024
  const MAX_AUDIO_PAYLOAD := 64 * 1024

  datatype Error = HeaderInvalid | SessionMismatch | PayloadLengthInvalid | HelloInvalid
                 | UnsupportedRate | UnsupportedFormat | UnsupportedFrameLength
                 | ControlLengthInvalid | StreamEnded

  datatype Result<+T> = Ok(value: T) | Err(error: Error)

  // --- Audio frames -------------------------------------------------------------------------

  datatype AudioFrame = AudioFrame(sequence: u8, sentAt: i64, payload: Bytes)

  /** The sender's layout; the payload length is truncated to its 16-bit field. */
  function EncodeAudio(session: u64, f: AudioFrame): Bytes {
    PushU16(PushI64(PushU64([CONTROL_AUDIO], session) + [f.sequence], f.sentAt), |f.payload| % 0x1_0000) + f.payload
  }

  function ParseAudio(data: Bytes, expectedSession: u64): Result<AudioFrame> {
    if |data| < 20 || data[0] != CONTROL_AUDIO then Err(HeaderInvalid)
    else if ReadWord(data, 1, 8).value != expectedSession then Err(SessionMismatch)
    else
      var payloadLength := ReadWord(data, 18, 2).value;
      if payloadLength == 0 || payloadLength > MAX_AUDIO_PAYLOAD || |data| != 20 + payloadLength
      then Err(PayloadLengthInvalid)
      else WordBelow(data, 10, 8); WordSizes();
           Ok(AudioFrame(data[9], Signed64(ReadWord(data, 10, 8).value), data[20..]))
  }

  lemma WordBelow(data: Bytes, offset: nat, k: nat)
    requires offset + k <= |data|
    ensures ReadWord(data, offset, k).Some? && ReadWord(data, offset, k).value < Pow256(k)
  {
    ReadFits(data, offset, k);
  }

  lemma EncodedAudioFields(session: u64, f: AudioFrame)
    ensures var d := EncodeAudio(session, f);
            && |d| == 20 + |f.payload|
            && d[0] == CONTROL_AUDIO && d[9] == f.sequence && d[20..] == f.payload
            && ReadWord(d, 1, 8) == Some(session)
            && ReadWord(d, 10, 8) == Some(Unsigned64(f.sentAt))
            && ReadWord(d, 18, 2) == Some(|f.payload| % 0x1_0000)
  {
    var d := EncodeAudio(session, f);
    var s, t, n := ToBytes(session, 8), ToBytes(Unsigned64(f.sentAt), 8), ToBytes(|f.payload| % 0x1_0000, 2);
    WordSizes();
    hide ToBytes;
    assert d == [CONTROL_AUDIO] + s + ([f.sequence] + t + n + f.payload);
    ReadPushed([CONTROL_AUDIO], session, 8, [f.sequence] + t + n + f.payload);
    assert d == ([CONTROL_AUDIO] + s + [f.sequence]) + t + (n + f.payload);
    ReadPushed([CONTROL_AUDIO] + s + [f.sequence], Unsigned64(f.sentAt), 8, n + f.payload);
    assert d == ([CONTROL_AUDIO] + s + [f.sequence] + t) + n + f.payload;
    ReadPushed([CONTROL_AUDIO] + s + [f.sequence] + t, |f.payload| % 0x1_0000, 2, f.payload);
  }

  /** Parsing undoes encoding exactly for payloads of 1 to 65535 bytes; any other payload
      is refused. */
  lemma ParseEncoded(session: u64, f: AudioFrame)
    ensures 1 <= |f.payload| <= 0xffff ==> ParseAudio(EncodeAudio(session, f), session) == Ok(f)
    ensures !(1 <= |f.payload| <= 0xffff) ==> ParseAudio(EncodeAudio(session, f), session) == Err(PayloadLengthInvalid)
  {
    EncodedAudioFields(session, f);
    hide EncodeAudio, ReadWord;
  }

  /** Another session's frame is refused, whatever it carries. */
  lemma OtherSessionRefused(session: u64, expected: u64, f: AudioFrame)
    requires session != expected
    ensures ParseAudio(EncodeAudio(session, f), expected) == Err(SessionMismatch)
  {
    EncodedAudioFields(session, f);
    hide EncodeAudio, ReadWord;
  }

  /** Encoding undoes parsing: an accepted byte string is the one encoding of its frame. */
  lemma EncodeParsed(data: Bytes, session: u64)
    requires ParseAudio(data, session).Ok?
    ensures var f := ParseAudio(data, session).value;
            1 <= |f.payload| <= 0xffff && EncodeAudio(session, f) == data
  {
    hide ToBytes, FromBytes, Pow256, ReadWord;
    WordSizes();
    ReadFits(data, 1, 8);
    ReadFits(data, 10, 8);
    ReadFits(data, 18, 2);
    AudioSlices(data);
  }

  lemma AudioSlices(data: Bytes)
    requires |data| >= 20
    ensures data == [data[0]] + data[1..9] + [data[9]] + data[10..18] + data[18..20] + data[20..]
  {
  }

  /** The parser accepts exactly the encodings of payloads of 1 to 65535 bytes. */
  lemma ParserAcceptsExactly(data: Bytes, session: u64)
    ensures ParseAudio(data, session).Ok?
            <==> exists f: AudioFrame :: 1 <= |f.payload| <= 0xffff && data == EncodeAudio(session, f)
  {
    if ParseAudio(data, session).Ok? {
      EncodeParsed(data, session);
    }
    forall f: AudioFrame | 1 <= |f.payload| <= 0xffff && data == EncodeAudio(session, f)
      ensures ParseAudio(data, session).Ok?
    {
      ParseEncoded(session, f);
    }
  }

  // --- Handshake ----------------------------------------------------------------------------

  datatype AudioConfig = AudioConfig(session: u64, sampleRate: u32, bitrate: u32, channels: u8, codec: u8, frameMs: u8)

  function EncodeHello(c: AudioConfig, reserved: u8): Bytes {
    PushU32(PushU32(PushU64([CONTROL_HELLO, VERSION], c.session), c.sampleRate) + [c.channels, c.codec, c.frameMs], c.bitrate)
    + [reserved]
  }

  predicate Supported(c: AudioConfig) {
    && (c.sampleRate == 44100 || c.sampleRate == 48000)
    && (c.channels == 1 || c.channels == 2)
    && (c.codec == 0 || c.codec == 1)
    && (c.codec == 1 ==> c.frameMs == 10 || c.frameMs == 20 || c.frameMs == 40)
  }

  function ParseHello(data: Bytes): Result<AudioConfig> {
    if |data| != 22 || data[0] != CONTROL_HELLO || data[1] != VERSION then Err(HelloInvalid)
    else
      WordBelow(data, 2, 8); WordBelow(data, 10, 4); WordBelow(data, 17, 4); WordSizes();
      var c := AudioConfig(ReadWord(data, 2, 8).value, ReadWord(data, 10, 4).value, ReadWord(data, 17, 4).value,
                           data[14], data[15], data[16]);
      if c.sampleRate != 44100 && c.sampleRate != 48000 then Err(UnsupportedRate)
      else if (c.channels != 1 && c.channels != 2) || (c.codec != 0 && c.codec != 1) then Err(UnsupportedFormat)
      else if c.codec == 1 && c.frameMs != 10 && c.frameMs != 20 && c.frameMs != 40 then Err(UnsupportedFrameLength)
      else Ok(c)
  }

  lemma HelloFields(c: AudioConfig, reserved: u8)
    ensures var d := EncodeHello(c, reserved);
            && |d| == 22 && d[0] == CONTROL_HELLO && d[1] == VERSION
            && d[14] == c.channels && d[15] == c.codec && d[16] == c.frameMs && d[21] == reserved
            && ReadWord(d, 2, 8) == Some(c.session)
            && ReadWord(d, 10, 4) == Some(c.sampleRate)
            && ReadWord(d, 17, 4) == Some(c.bitrate)
  {
    var d := EncodeHello(c, reserved);
    var s, r, b := ToBytes(c.session, 8), ToBytes(c.sampleRate, 4), ToBytes(c.bitrate, 4);
    var head, mid := [CONTROL_HELLO, VERSION], [c.channels, c.codec, c.frameMs];
    WordSizes();
    hide ToBytes;
    assert d == head + s + (r + mid + b + [reserved]);
    ReadPushed(head, c.session, 8, r + mid + b + [reserved]);
    assert d == (head + s) + r + (mid + b + [reserved]);
    ReadPushed(head + s, c.sampleRate, 4, mid + b + [reserved]);
    assert d == (head + s + r + mid) + b + [reserved];
    ReadPushed(head + s + r + mid, c.bitrate, 4, [reserved]);
  }

  /** A handshake is accepted exactly when its configuration is supported, the reserved byte
      being ignored, and then yields that configuration. */
  lemma HelloAcceptedIffSupported(c: AudioConfig, reserved: u8)
    ensures ParseHello(EncodeHello(c, reserved)).Ok? <==> Supported(c)
    ensures Supported(c) ==> ParseHello(EncodeHello(c, reserved)) == Ok(c)
    ensures c.sampleRate !in {44100, 48000} ==> ParseHello(EncodeHello(c, reserved)) == Err(UnsupportedRate)
    ensures c.sampleRate in {44100, 48000} && (c.channels !in {1, 2} || c.codec > 1) ==>
              ParseHello(EncodeHello(c, reserved)) == Err(UnsupportedFormat)
    ensures c.sampleRate in {44100, 48000} && c.channels in {1, 2} && c.codec <= 1 ==>
              ParseHello(EncodeHello(c, reserved)) ==
                if c.codec == 1 && c.frameMs !in {10, 20, 40} then Err(UnsupportedFrameLength) else Ok(c)
  {
    HelloFields(c, reserved);
    hide EncodeHello, ReadWord;
  }

  lemma HelloParsedIsEncoded(data: Bytes)
    requires ParseHello(data).Ok?
    ensures Supported(ParseHello(data).value) && EncodeHello(ParseHello(data).value, data[21]) == data
  {
    WordSizes();
    ReadFits(data, 2, 8);
    ReadFits(data, 10, 4);
    ReadFits(data, 17, 4);
    hide ToBytes, FromBytes, Pow256, ReadWord;
    assert data == [data[0], data[1]] + data[2..10] + data[10..14] + [data[14], data[15], data[16]] + data[17..21] + [data[21]];
  }

  // --- Control framing ----------------------------------------------------------------------

  function WriteControlFrame(data: Bytes): Bytes {
    ToBytes(|data| % 0x1_0000_0000, 4) + data
  }

  /** One frame off the front of the stream, and what follows it. */
  function ReadControlFrame(stream: Bytes): Result<(Bytes, Bytes)> {
    if |stream| < 4 then Err(StreamEnded)
    else
      var length := FromBytes(stream[..4]);
      if length == 0 || length > MAX_CONTROL_FRAME then Err(ControlLengthInvalid)
      else if |stream| < 4 + length then Err(StreamEnded)
      else Ok((stream[4..4 + length], stream[4 + length..]))
  }

  /** Every frame of a stream up to the first that cannot be read, and what is left then. */
  function ReadAll(stream: Bytes): (r: (seq<Bytes>, Bytes))
    decreases |stream|
  {
    var first := ReadControlFrame(stream);
    if first.Err? then ([], stream)
    else var rest := ReadAll(first.value.1); ([first.value.0] + rest.0, rest.1)
  }

  function WriteAll(messages: seq<Bytes>): Bytes {
    if messages == [] then [] else WriteControlFrame(messages[0]) + WriteAll(messages[1..])
  }

  predicate Sendable(message: Bytes) { 1 <= |message| <= MAX_CONTROL_FRAME }

  /** Four bytes of length, then the message. */
  lemma ControlFrameFields(message: Bytes)
    requires |message| < 0x1_0000_0000
    ensures var d := WriteControlFrame(message);
            |d| == 4 + |message| && ReadWord(d, 0, 4) == Some(|message|) && d[4..] == message
  {
    WordSizes();
    hide ToBytes;
    ReadPushed([], |message|, 4, message);
    assert [] + ToBytes(|message|, 4) + message == WriteControlFrame(message);
  }

  /** A written frame is read back, with the rest of the stream untouched, exactly when it
      has 1 to 65536 bytes. */
  lemma WrittenFrameIsRead(message: Bytes, rest: Bytes)
    requires |message| < 0x1_0000_0000
    ensures Sendable(message) ==> ReadControlFrame(WriteControlFrame(message) + rest) == Ok((message, rest))
    ensures !Sendable(message) ==> ReadControlFrame(WriteControlFrame(message) + rest) == Err(ControlLengthInvalid)
  {
    WordSizes();
    FromToBytes(|message|, 4);
    hide ToBytes, FromBytes;
    var stream := WriteControlFrame(message) + rest;
    assert stream[..4] == ToBytes(|message|, 4);
    assert stream[4..4 + |message|] == message && stream[4 + |message|..] == rest;
  }

  /** Any list of messages of 1 to 65536 bytes, written one after another, splits back into
      the same list, whatever follows it. */
  lemma {:induction false} ControlStreamSplits(messages: seq<Bytes>, rest: Bytes)
    requires forall i :: 0 <= i < |messages| ==> Sendable(messages[i])
    ensures ReadAll(WriteAll(messages) + rest) == (messages + ReadAll(rest).0, ReadAll(rest).1)
    decreases |messages|
  {
    hide ReadAll, WriteAll, WriteControlFrame;
    if messages == [] {
      NothingWritten(rest);
      assert messages + ReadAll(rest).0 == ReadAll(rest).0;
    } else {
      WriteAllFirst(messages, rest);
      FirstFrameFirst(messages[0], WriteAll(messages[1..]) + rest);
      ControlStreamSplits(messages[1..], rest);
      assert messages + ReadAll(rest).0 == [messages[0]] + (messages[1..] + ReadAll(rest).0);
    }
  }

  lemma NothingWritten(rest: Bytes)
    ensures WriteAll([]) + rest == rest
  {
  }

  lemma WriteAllFirst(messages: seq<Bytes>, rest: Bytes)
    requires messages != []
    ensures WriteAll(messages) + rest == WriteControlFrame(messages[0]) + (WriteAll(messages[1..]) + rest)
  {
    hide WriteControlFrame;
  }

  lemma FirstFrameFirst(message: Bytes, after: Bytes)
    requires Sendable(message)
    ensures ReadAll(WriteControlFrame(message) + after) == ([message] + ReadAll(after).0, ReadAll(after).1)
  {
    WrittenFrameIsRead(message, after);
    hide ReadControlFrame, WriteControlFrame;
  }

  /** Conversely every stream is the writing of the frames read from it followed by what is
      left, and no frame can be read from that. */
  lemma {:induction false} ControlStreamIsWritten(stream: Bytes)
    ensures var (messages, left) := ReadAll(stream);
            && stream == WriteAll(messages) + left
            && (forall i :: 0 <= i < |messages| ==> Sendable(messages[i]))
            && ReadControlFrame(left).Err?
    decreases |stream|
  {
    var first := ReadControlFrame(stream);
    if first.Ok? {
      ControlStreamIsWritten(first.value.1);
      ReadFrameIsWritten(stream);
      var (messages, left) := ReadAll(first.value.1);
      hide ReadControlFrame, WriteControlFrame;
      assert ([first.value.0] + messages)[1..] == messages;
    }
  }

  lemma ReadFrameIsWritten(stream: Bytes)
    requires ReadControlFrame(stream).Ok?
    ensures var (message, rest) := ReadControlFrame(stream).value;
            stream == WriteControlFrame(message) + rest && Sendable(message) && |rest| < |stream|
  {
    ToFromBytes(stream[..4]);
    hide ToBytes, FromBytes;
  }

  /** Audio frames travel inside control frames, so the control limit is the tighter one: an
      encoded frame is delivered exactly when its payload has 1 to 65516 bytes, although the
      audio parser alone would take up to 65535. */
  lemma AudioDeliveredIff(session: u64, f: AudioFrame, rest: Bytes)
    requires |f.payload| < 0x1_0000_0000 - 20
    ensures var r := ReadControlFrame(WriteControlFrame(EncodeAudio(session, f)) + rest);
            (r.Ok? && ParseAudio(r.value.0, session) == Ok(f)) <==> 1 <= |f.payload| <= 65516
  {
    EncodedAudioFields(session, f);
    WrittenFrameIsRead(EncodeAudio(session, f), rest);
    ParseEncoded(session, f);
    hide ReadControlFrame, WriteControlFrame, EncodeAudio, ParseAudio;
  }
}
