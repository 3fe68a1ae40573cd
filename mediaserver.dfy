/**
 * The local media server that feeds the synthetic camera: a single-slot
 * register holding the latest frame, published into the module-level
 * variables that the HTTP handlers read, and the multipart part that one
 * iteration of the video generator emits for the frame it finds there.
 */
module MediaServer {
  import opened Wrappers
  import opened PyStr

  newtype byte = b: int | 0 <= b < 256

  /** A frame as a numpy array indexed [d0][d1][channel]; its element values are not interpreted. */
  type Frame = seq<seq<seq<real>>>

  /** numpy's `zeros((d0, d1, 3))`. */
  function Zeros(d0: nat, d1: nat): (f: Frame)
    ensures |f| == d0
    ensures forall i :: 0 <= i < d0 ==> |f[i]| == d1
    ensures forall i, j :: 0 <= i < d0 && 0 <= j < d1 ==> |f[i][j]| == 3
    ensures forall i, j, c :: 0 <= i < d0 && 0 <= j < d1 && 0 <= c < 3 ==> f[i][j][c] == 0.0
  {
    seq(d0, _ => seq(d1, _ => [0.0, 0.0, 0.0]))
  }

  /** The module-level variables `last_frame` (initially `None`) and `audio_file_path` (initially ""). */
  class StreamState {
    var lastFrame: Option<Frame>
    var audioFilePath: string

    constructor ()
      ensures lastFrame == None && audioFilePath == ""
    {
      lastFrame := None;
      audioFilePath := "";
    }
  }

  /** The `MediaServer` object: its own latest-frame slot, and the module state it publishes into. */
  class MediaServer {
    const port: int
    const width: nat
    const height: nat
    const state: StreamState
    var lastFrame: Frame

    /** Seeds the register with a zero frame of shape (width, height, 3) and publishes it. */
    constructor (state: StreamState, port: int := 5000, width: nat := 640, height: nat := 480)
      modifies state
      ensures this.state == state && this.port == port && this.width == width && this.height == height
      ensures lastFrame == Zeros(width, height)
      ensures state.lastFrame == Some(lastFrame)
      ensures state.audioFilePath == old(state.audioFilePath)
    {
      this.port := port;
      this.width := width;
      this.height := height;
      this.state := state;
      lastFrame := Zeros(width, height);
      new;
      UpdateStream();
    }

    /** Overwrites the register with `frame` and publishes it; no earlier frame is kept. */
    method AddNextFrame(frame: Frame)
      modifies this`lastFrame, state
      ensures lastFrame == frame
      ensures state.lastFrame == Some(frame)
      ensures state.audioFilePath == old(state.audioFilePath)
    {
      lastFrame := frame;
      UpdateStream();
    }

    /** Sets the module-level audio path; the frame register is left alone. */
    static method AddAudioPath(state: StreamState, path: string)
      modifies state
      ensures state.audioFilePath == path
      ensures state.lastFrame == old(state.lastFrame)
    {
      state.audioFilePath := path;
    }

    /**
     * Copies the register into the module-level `last_frame`. The outcome
     * depends only on the register, which this leaves unchanged, so a
     * second call changes nothing.
     */
    method UpdateStream()
      modifies state
      ensures state.lastFrame == Some(lastFrame)
      ensures state.audioFilePath == old(state.audioFilePath)
    {
      state.lastFrame := Some(lastFrame);
    }
  }

  /**
   * A run of the collaborator: construct, publish three frames, republish,
   * set the audio path twice. The module state ends with the last frame
   * published and the last path set.
   */
  method PublishScenario(state: StreamState, red: Frame, green: Frame, blue: Frame)
    modifies state
    ensures state.lastFrame == Some(blue)
    ensures state.audioFilePath == "second.wav"
  {
    var server := new MediaServer(state);
    assert state.lastFrame == Some(Zeros(640, 480));
    server.AddNextFrame(red);
    server.AddNextFrame(green);
    server.AddNextFrame(blue);
    assert server.lastFrame == blue;
    server.UpdateStream();
    server.UpdateStream();
    MediaServer.AddAudioPath(state, "first.wav");
    MediaServer.AddAudioPath(state, "second.wav");
  }

  /** The bytes of an ASCII text, as a Python `b'...'` literal or `str.encode()` of ASCII gives them. */
  function Ascii(s: string): (b: seq<byte>)
    ensures |b| == |s|
    ensures forall i :: 0 <= i < |s| ==> b[i] as int == s[i] as int % 256
  {
    seq(|s|, i requires 0 <= i < |s| => (s[i] as int % 256) as byte)
  }

  /** A text without a carriage return encodes to bytes without a CR. */
  lemma AsciiNoCR(s: string)
    requires forall i :: 0 <= i < |s| ==> s[i] as int < 256
    requires '\r' !in s
    ensures CR !in Ascii(s)
  {
    forall i | 0 <= i < |s| ensures Ascii(s)[i] != CR {
      assert s[i] in s;
    }
  }

  lemma AsciiConcat(a: string, b: string)
    ensures Ascii(a + b) == Ascii(a) + Ascii(b)
  {
    var l, r := Ascii(a + b), Ascii(a) + Ascii(b);
    forall i | 0 <= i < |l| ensures l[i] == r[i] {
      if i < |a| { assert (a + b)[i] == a[i]; } else { assert (a + b)[i] == b[i - |a|]; }
    }
  }

  const CR: byte := 13
  const CRLF: seq<byte> := [13, 10]
  const BlankLine: seq<byte> := [13, 10, 13, 10]

  /** The mimetype of the `/video_stream` response. */
  const VideoMimetype: string := "multipart/x-mixed-replace; boundary=frame"

  /** The text after `boundary=` in a mimetype, if it has that parameter. */
  function MimeBoundary(mimetype: string): (b: Option<string>)
    ensures b.Some? ==> exists i :: 0 <= i <= |mimetype| - |b.value| && mimetype[i..] == b.value
  {
    match Find(mimetype, "boundary=")
    case None => None
    case Some(i) => Some(mimetype[i + 9..])
  }

  /** The video response declares the boundary `frame`. */
  lemma VideoBoundary()
    ensures MimeBoundary(VideoMimetype) == Some("frame")
  {
    var x, p, y := "multipart/x-mixed-replace; ", "boundary=", "frame";
    assert VideoMimetype == x + p + y;
    assert 'b' !in x;
    FindFirst(x, p, y);
    assert (x + p + y)[|x| + 9..] == y;
  }

  /** The bytes of one part as the generator yields them, for a timestamp text and the JPEG bytes of a frame. */
  function Part(timestamp: seq<byte>, jpeg: seq<byte>): seq<byte>
  {
    Ascii("--frame\r\n") + Ascii("X-Timestamp: ") + timestamp + Ascii("\r\n") +
    Ascii("Content-Type: image/jpeg\r\n\r\n") + jpeg + Ascii("\r\n")
  }

  /**
   * One iteration of `generate_video`: nothing while the module-level
   * `last_frame` is empty, otherwise the part carrying the frame as `encode`
   * (standing for `cv2.imencode('.jpeg', ...)`) turns it into bytes.
   */
  function GenerateVideoStep(lastFrame: Option<Frame>, timestamp: seq<byte>, encode: Frame -> seq<byte>): (part: Option<seq<byte>>)
    ensures part.None? <==> lastFrame.None?
  {
    match lastFrame
    case None => None
    case Some(frame) => Some(Part(timestamp, encode(frame)))
  }

  /** A part split into its header lines and its body. */
  datatype ParsedPart = ParsedPart(headers: seq<seq<byte>>, body: seq<byte>)

  /**
   * Reads one part of a multipart body back (section 5.1.1 of RFC 2046): the
   * delimiter line "--" + boundary, header lines up to the first blank line,
   * then the body up to the CRLF that precedes the next delimiter.
   */
  function ParsePart(boundary: string, part: seq<byte>): Option<ParsedPart>
  {
    var delimiter := Ascii("--" + boundary) + CRLF;
    if |part| < |delimiter| || part[..|delimiter|] != delimiter then None
    else
      var rest := part[|delimiter|..];
      match Find(rest, BlankLine)
      case None => None
      case Some(h) =>
        var body := rest[h + 4..];
        if |body| < 2 || body[|body| - 2..] != CRLF then None
        else Some(ParsedPart(Split(rest[..h], CRLF, -1), body[..|body| - 2]))
  }

  /** The first blank line after two CR-free header lines is the one that ends them. */
  lemma BlankLineAfterHeaders(a: seq<byte>, b: seq<byte>, rest: seq<byte>)
    requires CR !in a && CR !in b && |b| > 0
    ensures Find(a + CRLF + b + BlankLine + rest, BlankLine) == Some(|a| + 2 + |b|)
  {
    var s := a + CRLF + b + BlankLine + rest;
    var h := |a| + 2 + |b|;
    forall i: nat | i < h ensures !OccursAt(s, BlankLine, i) {
      assert i + 2 < |s|;
      if i < |a| {
        assert s[i] == a[i];
      } else if i == |a| {
        assert s[i + 2] == b[0];
      } else if i == |a| + 1 {
        assert s[i] == 10;
      } else {
        assert s[i] == b[i - |a| - 2];
      }
      assert s[i] != CR || s[i + 2] != CR;
      if i + 4 <= |s| {
        assert s[i..i + 4][0] == s[i] && s[i..i + 4][2] == s[i + 2];
      }
    }
    assert s[h..h + 4] == BlankLine;
    FindAt(s, BlankLine, h);
  }

  /** Two CR-free lines joined by CRLF split back into the two lines. */
  lemma TwoLines(a: seq<byte>, b: seq<byte>)
    requires CR !in a && CR !in b
    ensures Split(a + CRLF + b, CRLF, -1) == [a, b]
  {
    var s := a + CRLF + b;
    forall i: nat | i < |a| ensures !OccursAt(s, CRLF, i) {
      assert s[i] == a[i] && s[i..i + 2][0] == s[i];
    }
    forall i: nat ensures !OccursAt(b, CRLF, i) {
      if i + 2 <= |b| { assert b[i..i + 2][0] == b[i]; }
    }
    SplitOnceAt(a, CRLF, b);
  }

  /** A part laid out as delimiter line, two CR-free header lines, blank line, body and CRLF reads back. */
  lemma ParseLaidOut(boundary: string, a: seq<byte>, b: seq<byte>, body: seq<byte>)
    requires CR !in a && CR !in b && |b| > 0
    ensures ParsePart(boundary, (Ascii("--" + boundary) + CRLF) + (a + CRLF + b + BlankLine + (body + CRLF))) ==
            Some(ParsedPart([a, b], body))
  {
    var delimiter := Ascii("--" + boundary) + CRLF;
    var rest := a + CRLF + b + BlankLine + (body + CRLF);
    assert (delimiter + rest)[..|delimiter|] == delimiter;
    assert (delimiter + rest)[|delimiter|..] == rest;
    BlankLineAfterHeaders(a, b, body + CRLF);
    var h := |a| + 2 + |b|;
    assert rest[..h] == a + CRLF + b;
    assert rest[h + 4..] == body + CRLF;
    TwoLines(a, b);
  }

  /**
   * Every part the generator yields reads back, with the boundary that the
   * response mimetype declares, into its two header lines and exactly the
   * encoded frame; the timestamp text must not hold a CR.
   */
  lemma PartRoundTrip(timestamp: seq<byte>, jpeg: seq<byte>)
    requires CR !in timestamp
    ensures MimeBoundary(VideoMimetype) == Some("frame")
    ensures ParsePart("frame", Part(timestamp, jpeg)) ==
            Some(ParsedPart([Ascii("X-Timestamp: ") + timestamp, Ascii("Content-Type: image/jpeg")], jpeg))
  {
    VideoBoundary();
    HeaderTextsNoCR();
    PartLayout(timestamp, jpeg);
    FrameDelimiter();
    ParseLaidOut("frame", Ascii("X-Timestamp: ") + timestamp, Ascii("Content-Type: image/jpeg"), jpeg);
  }

  lemma HeaderTextsNoCR()
    ensures CR !in Ascii("X-Timestamp: ") && CR !in Ascii("Content-Type: image/jpeg")
  {
    AsciiNoCR("X-Timestamp: ");
    AsciiNoCR("Content-Type: image/jpeg");
  }

  /** The delimiter line for the boundary `frame` is the first line of every part. */
  lemma FrameDelimiter()
    ensures Ascii("--" + "frame") + CRLF == Ascii("--frame\r\n")
  {
    AsciiConcat("--frame", "\r\n");
    assert "--" + "frame" == "--frame";
  }

  /** A part is the delimiter line, then the header block and blank line, then the body and its CRLF. */
  lemma PartLayout(timestamp: seq<byte>, jpeg: seq<byte>)
    ensures Part(timestamp, jpeg) ==
            Ascii("--frame\r\n") +
            (Ascii("X-Timestamp: ") + timestamp + CRLF + Ascii("Content-Type: image/jpeg") + BlankLine + (jpeg + CRLF))
  {
    AsciiConcat("Content-Type: image/jpeg", "\r\n\r\n");
    assert Ascii("\r\n") == CRLF;
    assert Ascii("\r\n\r\n") == BlankLine;
  }

  /** A generator step with a frame present yields a part that carries exactly that frame's encoding. */
  lemma StepCarriesFrame(frame: Frame, timestamp: seq<byte>, encode: Frame -> seq<byte>)
    requires CR !in timestamp
    ensures var part := GenerateVideoStep(Some(frame), timestamp, encode);
            part.Some? && ParsePart("frame", part.value) ==
            Some(ParsedPart([Ascii("X-Timestamp: ") + timestamp, Ascii("Content-Type: image/jpeg")], encode(frame)))
  {
    PartRoundTrip(timestamp, encode(frame));
  }
}
