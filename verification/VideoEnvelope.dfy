/** The binary envelope around a video packet: how the client builds it, how the relay finds the
    target in it, and how the other client opens it. Go strings are byte strings; a string here
    holds one byte per character. */
module VideoEnvelope {
  import opened Options
  import opened Bytes

  type Frame = Bytes

  const MAGIC_0: Byte := 0xB1
  const MAGIC_1: Byte := 0x4D
  const UINT32: int := 0x1_0000_0000
  const UINT16: int := 0x1_0000

  // ----- Little-endian integers -----------------------------------------------------------------

  /** What `setUint32(_, n, Endian.little)` stores: the low 32 bits. */
  function PutUint32(n: nat): Frame {
    [n % 256, n / 256 % 256, n / 256 / 256 % 256, n / 256 / 256 / 256 % 256]
  }

  function GetUint32(b: Frame): nat
    requires |b| == 4
  {
    var b0: int, b1: int, b2: int, b3: int := b[0], b[1], b[2], b[3];
    b0 + 256 * b1 + 65536 * b2 + 16777216 * b3
  }

  function PutUint16(n: nat): Frame {
    [n % 256, n / 256 % 256]
  }

  function GetUint16(b: Frame): nat
    requires |b| == 2
  {
    var b0: int, b1: int := b[0], b[1];
    b0 + 256 * b1
  }

  lemma Uint32RoundTrip(n: nat)
    ensures GetUint32(PutUint32(n)) == n % UINT32
  {
    var q1, q2, q3 := n / 256, n / 256 / 256, n / 256 / 256 / 256;
    assert n == 256 * q1 + n % 256 && q1 == 256 * q2 + q1 % 256 && q2 == 256 * q3 + q2 % 256;
    assert n == UINT32 * (q3 / 256) + GetUint32(PutUint32(n));
  }

  lemma Uint16RoundTrip(n: nat)
    ensures GetUint16(PutUint16(n)) == n % UINT16
  {
    var q := n / 256;
    assert n == UINT16 * (q / 256) + GetUint16(PutUint16(n));
  }

  predicate HasMagic(msg: Frame) {
    |msg| >= 2 && msg[0] == MAGIC_0 && msg[1] == MAGIC_1
  }

  // ----- The relay's view --------------------------------------------------------------------------

  /** The target client ID; or nothing to do; or an index out of range, which ends the reader. */
  datatype Target = Ignored | To(id: Frame) | OutOfRange

  /** All sums are in uint32, as on the server: both the length check and the slice bound wrap. */
  function ParseTarget(msg: Frame): Target {
    if |msg| < 8 || !HasMagic(msg) then Ignored
    else
      var end := (8 + GetUint32(msg[4..8])) % UINT32;
      if |msg| % UINT32 < end then Ignored
      else if end < 8 then OutOfRange
      else To(msg[8..end])
  }

  // ----- The clients' view --------------------------------------------------------------------------

  function Build(to: Frame, session: Frame, keyframe: bool, width: nat, height: nat, vp9: Frame): Frame {
    [MAGIC_0, MAGIC_1, 0, 0] + PutUint32(|to|) + to + PutUint32(|session|) + session
    + [if keyframe then 1 else 0] + PutUint16(width) + PutUint16(height) + vp9
  }

  datatype Video = Video(width: nat, height: nat, vp9: Frame)

  function Open(data: Frame): Option<Video> {
    if |data| < 8 || !HasMagic(data) then None
    else
      var off := 8 + GetUint32(data[4..8]);
      if off + 4 > |data| then None
      else
        var off' := off + 4 + GetUint32(data[off..off + 4]);
        if off' + 5 > |data| then None
        else if off' + 5 == |data| then None
        else Some(Video(GetUint16(data[off' + 1..off' + 3]), GetUint16(data[off' + 3..off' + 5]), data[off' + 5..]))
  }

  // ----- Round trips -----------------------------------------------------------------------------------

  lemma Middle(a: Frame, b: Frame, c: Frame)
    ensures (a + b + c)[|a|..|a| + |b|] == b && (a + b + c)[|a| + |b|..] == c
  {
  }

  /** The envelope as header, target and the part the relay never looks at. */
  lemma BuildShape(to: Frame, session: Frame, keyframe: bool, width: nat, height: nat, vp9: Frame)
    ensures var msg := Build(to, session, keyframe, width, height, vp9);
            && |msg| == 17 + |to| + |session| + |vp9|
            && HasMagic(msg) && msg[4..8] == PutUint32(|to|) && msg[8..8 + |to|] == to
  {
  }

  lemma WrapOnce(n: nat)
    ensures (8 + n % UINT32) % UINT32 == (8 + n) % UINT32
  {
    var q, r := n / UINT32, n % UINT32;
    assert 8 + n == UINT32 * q + (8 + r);
    if 8 + r >= UINT32 {
      assert 8 + n == UINT32 * (q + 1) + (8 + r - UINT32);
    }
  }

  lemma ParseOf(msg: Frame, n: nat)
    requires |msg| >= 8 && HasMagic(msg) && msg[4..8] == PutUint32(n)
    ensures var end := (8 + n) % UINT32;
            ParseTarget(msg) ==
            if |msg| % UINT32 < end then Ignored else if end < 8 then OutOfRange else To(msg[8..end])
  {
    var announced := GetUint32(msg[4..8]);
    assert (8 + announced) % UINT32 == (8 + n) % UINT32 by {
      Uint32RoundTrip(n);
      WrapOnce(n);
    }
  }

  /** The relay reads back the target exactly when the announced length plus 8 does not wrap and the
      uint32 image of the frame's length still covers it; so always, for frames below 4 GiB whose
      target fits. */
  lemma RelayFindsTarget(to: Frame, session: Frame, keyframe: bool, width: nat, height: nat, vp9: Frame)
    ensures var msg := Build(to, session, keyframe, width, height, vp9);
            ParseTarget(msg) == To(to) <==> |to| < UINT32 - 8 && 8 + |to| <= |msg| % UINT32
  {
    var msg := Build(to, session, keyframe, width, height, vp9);
    BuildShape(to, session, keyframe, width, height, vp9);
    TargetSurvives(msg, to);
  }

  lemma TargetSurvives(msg: Frame, to: Frame)
    requires |msg| >= 8 + |to| && HasMagic(msg) && msg[4..8] == PutUint32(|to|) && msg[8..8 + |to|] == to
    ensures ParseTarget(msg) == To(to) <==> |to| < UINT32 - 8 && 8 + |to| <= |msg| % UINT32
  {
    ParseOf(msg, |to|);
    var end := (8 + |to|) % UINT32;
    if |to| < UINT32 - 8 {
      assert end == 8 + |to|;
    } else {
      assert end < 8 + |to|;
      assert end >= 8 ==> |msg[8..end]| == end - 8 < |to|;
    }
  }

  lemma PutGet(b: Frame)
    requires |b| == 4
    ensures PutUint32(GetUint32(b)) == b && GetUint32(b) < UINT32
  {
    var b0: int, b1: int, b2: int, b3: int := b[0], b[1], b[2], b[3];
    var n := GetUint32(b);
    assert n == b0 + 256 * (b1 + 256 * (b2 + 256 * b3));
    assert n / 256 == b1 + 256 * (b2 + 256 * b3) && n % 256 == b0;
    assert n / 256 / 256 == b2 + 256 * b3 && n / 256 % 256 == b1;
    assert n / 256 / 256 / 256 == b3 && n / 256 / 256 % 256 == b2;
  }

  /** On any frame, built by a client or not, the relay reads a target exactly if the magic is there, the
      four bytes after the version announce the target's length, and the target follows in full. */
  lemma TargetExactly(msg: Frame, to: Frame)
    ensures ParseTarget(msg) == To(to) <==>
            && |msg| >= 8 + |to| && msg[0] == 0xB1 && msg[1] == 0x4D
            && msg[4..8] == PutUint32(|to|) && msg[8..8 + |to|] == to
            && |to| < UINT32 - 8 && 8 + |to| <= |msg| % UINT32
  {
    if |msg| >= 8 && HasMagic(msg) {
      var announced := GetUint32(msg[4..8]);
      PutGet(msg[4..8]);
      if ParseTarget(msg).To? {
        assert announced < UINT32 - 8;
        assert |ParseTarget(msg).id| == announced;
      }
      if |msg| >= 8 + |to| && msg[4..8] == PutUint32(|to|) && msg[8..8 + |to|] == to {
        TargetSurvives(msg, to);
      }
    }
  }

  /** The reader goes out of range exactly on a frame whose announced length wraps past the header. */
  lemma OutOfRangeExactly(msg: Frame)
    ensures ParseTarget(msg) == OutOfRange <==>
            && |msg| >= 8 && HasMagic(msg)
            && GetUint32(msg[4..8]) >= UINT32 - 8
            && |msg| % UINT32 >= GetUint32(msg[4..8]) - (UINT32 - 8)
  {
    if |msg| >= 8 && HasMagic(msg) {
      var announced := GetUint32(msg[4..8]);
      assert (8 + announced) % UINT32 == if announced < UINT32 - 8 then 8 + announced else announced - (UINT32 - 8);
    }
  }

  /** The shortest such frame: nothing but a header. */
  lemma HeaderOnlyFrameIsOutOfRange()
    ensures ParseTarget([0xB1, 0x4D, 0, 0, 0xFF, 0xFF, 0xFF, 0xFF]) == OutOfRange
  {
    var msg: Frame := [0xB1, 0x4D, 0, 0, 0xFF, 0xFF, 0xFF, 0xFF];
    assert msg[4..8] == [0xFF, 0xFF, 0xFF, 0xFF];
    assert GetUint32(msg[4..8]) == UINT32 - 1;
    OutOfRangeExactly(msg);
  }

  lemma OpenOf(data: Frame, n: nat, m: nat)
    requires |data| >= 17 + n + m && HasMagic(data)
    requires GetUint32(data[4..8]) == n && GetUint32(data[8 + n..12 + n]) == m
    ensures Open(data) ==
            if |data| == 17 + n + m then None
            else Some(Video(GetUint16(data[13 + n + m..15 + n + m]), GetUint16(data[15 + n + m..17 + n + m]),
                            data[17 + n + m..]))
  {
    var off' := 12 + n + m;
    assert off' + 1 == 13 + n + m && off' + 3 == 15 + n + m && off' + 5 == 17 + n + m;
  }

  /** The receiving client opens exactly the frames that hold both announced strings, the five bytes of
      flags and size, and at least one byte of packet. */
  lemma OpensExactly(data: Frame)
    ensures Open(data).Some? <==>
            && |data| >= 8 && data[0] == 0xB1 && data[1] == 0x4D
            && var n := GetUint32(data[4..8]);
            && |data| >= 12 + n
            && |data| > 17 + n + GetUint32(data[8 + n..12 + n])
  {
    if |data| >= 8 && HasMagic(data) && |data| >= 12 + GetUint32(data[4..8]) {
      var n := GetUint32(data[4..8]);
      assert data[8 + n..8 + n + 4] == data[8 + n..12 + n];
    }
  }

  lemma OpenFields(data: Frame, n: nat, m: nat, width: nat, height: nat, vp9: Frame)
    requires |data| == 17 + n + m + |vp9| && HasMagic(data) && n < UINT32 && m < UINT32
    requires data[4..8] == PutUint32(n) && data[8 + n..12 + n] == PutUint32(m)
    requires data[13 + n + m..15 + n + m] == PutUint16(width) && data[15 + n + m..17 + n + m] == PutUint16(height)
    requires data[17 + n + m..] == vp9
    ensures Open(data) == if vp9 == [] then None else Some(Video(width % UINT16, height % UINT16, vp9))
  {
    assert GetUint32(data[4..8]) == n && GetUint32(data[8 + n..12 + n]) == m by {
      Uint32RoundTrip(n);
      Uint32RoundTrip(m);
    }
    OpenOf(data, n, m);
    Uint16RoundTrip(width);
    Uint16RoundTrip(height);
  }

  /** The other client gets back the packet and the dimensions modulo 2^16. */
  lemma OpenInvertsBuild(to: Frame, session: Frame, keyframe: bool, width: nat, height: nat, vp9: Frame)
    requires |to| < UINT32 && |session| < UINT32
    ensures Open(Build(to, session, keyframe, width, height, vp9)) ==
            if vp9 == [] then None else Some(Video(width % UINT16, height % UINT16, vp9))
  {
    BuildShape(to, session, keyframe, width, height, vp9);
    BuildTail(to, session, keyframe, width, height, vp9);
    OpenFields(Build(to, session, keyframe, width, height, vp9), |to|, |session|, width, height, vp9);
  }

  lemma BuildTail(to: Frame, session: Frame, keyframe: bool, width: nat, height: nat, vp9: Frame)
    ensures var msg, n, m := Build(to, session, keyframe, width, height, vp9), |to|, |session|;
            && |msg| == 17 + n + m + |vp9|
            && msg[8 + n..12 + n] == PutUint32(m)
            && msg[13 + n + m..15 + n + m] == PutUint16(width) && msg[15 + n + m..17 + n + m] == PutUint16(height)
            && msg[17 + n + m..] == vp9
  {
    var a := [MAGIC_0, MAGIC_1, 0, 0] + PutUint32(|to|) + to;
    var flags: Frame := [if keyframe then 1 else 0];
    var b := a + PutUint32(|session|) + session + flags;
    Middle(b + PutUint16(width), PutUint16(height), vp9);
    assert (b + PutUint16(width) + PutUint16(height) + vp9) == b + PutUint16(width) + (PutUint16(height) + vp9);
    Middle(b, PutUint16(width), PutUint16(height) + vp9);
    var rest := session + flags + PutUint16(width) + PutUint16(height) + vp9;
    assert b + PutUint16(width) + PutUint16(height) + vp9 == a + PutUint32(|session|) + rest;
    Middle(a, PutUint32(|session|), rest);
  }

  /** Byte by byte: a key frame of 258 by 772 with the packet [9], from session "s" to client "x". */
  lemma WireFormat()
    ensures Build([0x78], [0x73], true, 0x0102, 0x0304, [9]) ==
            [0xB1, 0x4D, 0, 0, 1, 0, 0, 0, 0x78, 1, 0, 0, 0, 0x73, 1, 0x02, 0x01, 0x04, 0x03, 9]
  {
  }

  // ----- Frame kinds --------------------------------------------------------------------------------

  datatype Kind = Binary | Text

  /** The kind the writer gives a frame: it only looks at the first two bytes. */
  function InferKind(msg: Frame): Kind {
    if HasMagic(msg) then Binary else Text
  }

  /** A JSON text starts with white space or with the first byte of a value (sections 2 and 3 of RFC 8259). */
  predicate StartsLikeJson(msg: Frame) {
    |msg| > 0 &&
    (msg[0] in {0x20, 0x09, 0x0A, 0x0D, 0x7B, 0x5B, 0x22, 0x2D, 0x66, 0x6E, 0x74} || 0x30 <= msg[0] <= 0x39)
  }
}
