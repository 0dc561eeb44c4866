/** The browser's camera helper of `static/js/webcam.js`: option defaults,
    the streaming state that `stop` and `takePicture` guard on, and the
    conversion of a captured data URI to a typed byte buffer. */
module WebcamClient {
  import opened Common
  import DataUri

  /** The `options` object as supplied; `None` is an absent key. */
  datatype OptionArgs = OptionArgs(
    width: Option<int>,
    height: Option<int>,
    facingMode: Option<string>,
    imageFormat: Option<string>,
    imageQuality: Option<real>)

  /** The settings the helper keeps. */
  datatype Settings = Settings(
    width: int,
    height: int,
    facingMode: string,
    imageFormat: string,
    imageQuality: real)

  /** `v || d` for a number: an absent value or zero falls back. */
  function NumberOr(v: Option<int>, d: int): (r: int)
    ensures v.Some? && v.value != 0 ==> r == v.value
    ensures v.None? || v.value == 0 ==> r == d
  {
    if v.Some? && v.value != 0 then v.value else d
  }

  /** `v || d` for a fraction. */
  function FractionOr(v: Option<real>, d: real): (r: real)
    ensures v.Some? && v.value != 0.0 ==> r == v.value
    ensures v.None? || v.value == 0.0 ==> r == d
  {
    if v.Some? && v.value != 0.0 then v.value else d
  }

  /** `v || d` for text: an absent value or the empty string falls back. */
  function TextOr(v: Option<string>, d: string): (r: string)
    ensures Truthy(v) ==> r == v.value
    ensures !Truthy(v) ==> r == d
  {
    if Truthy(v) then v.value else d
  }

  /** The defaults of the constructor. */
  function ResolveOptions(o: OptionArgs): (s: Settings)
  {
    Settings(
      NumberOr(o.width, 640),
      NumberOr(o.height, 480),
      TextOr(o.facingMode, "user"),
      TextOr(o.imageFormat, "image/jpeg"),
      FractionOr(o.imageQuality, 0.92))
  }

  /** The settings as an options object that supplies every key. */
  function Given(s: Settings): OptionArgs
  {
    OptionArgs(Some(s.width), Some(s.height), Some(s.facingMode), Some(s.imageFormat), Some(s.imageQuality))
  }

  /** Resolved settings are never falsy, and resolving them again changes
      nothing: every default is applied once. */
  lemma ResolveOptionsSettles(o: OptionArgs)
    ensures var s := ResolveOptions(o);
      && s.width != 0 && s.height != 0 && s.facingMode != "" && s.imageFormat != "" && s.imageQuality != 0.0
      && ResolveOptions(Given(s)) == s
  {
  }

  /** Settings supplied in full are kept exactly when none of them is
      falsy. */
  lemma GivenSettingsKept(s: Settings)
    ensures ResolveOptions(Given(s)) == s <==>
      s.width != 0 && s.height != 0 && s.facingMode != "" && s.imageFormat != "" && s.imageQuality != 0.0
  {
  }

  /** The helper's state. `stream` and `videoSource` (the video element's
      `srcObject`) are handles of media streams; `stoppedStreams` lists the
      streams whose tracks were stopped, in order. */
  class Webcam {
    var settings: Settings
    var stream: Option<int>
    var videoSource: Option<int>
    var isStreaming: bool
    var canvasWidth: int
    var canvasHeight: int
    var stoppedStreams: seq<int>

    /** The video always shows the held stream, and the helper streams only
        while it holds one. */
    ghost predicate Valid()
      reads this
    {
      && videoSource == stream
      && (isStreaming ==> stream.Some?)
    }

    constructor (options: OptionArgs, canvasWidth0: int, canvasHeight0: int)
      ensures Valid()
      ensures settings == ResolveOptions(options)
      ensures stream.None? && videoSource.None? && !isStreaming
      ensures canvasWidth == canvasWidth0 && canvasHeight == canvasHeight0 && stoppedStreams == []
    {
      settings := ResolveOptions(options);
      stream, videoSource := None, None;
      isStreaming := false;
      canvasWidth, canvasHeight := canvasWidth0, canvasHeight0;
      stoppedStreams := [];
    }

    /** `stop`: without a stream nothing happens; otherwise the stream's
        tracks are stopped and the helper no longer streams. */
    method Stop()
      requires Valid()
      modifies this
      ensures Valid()
      ensures old(stream).None? ==> unchanged(this)
      ensures old(stream).Some? ==>
        && stream.None? && videoSource.None? && !isStreaming
        && stoppedStreams == old(stoppedStreams) + [old(stream).value]
      ensures settings == old(settings) && canvasWidth == old(canvasWidth) && canvasHeight == old(canvasHeight)
    {
      if stream.Some? {
        stoppedStreams := stoppedStreams + [stream.value];
        stream := None;
        isStreaming := false;
        videoSource := None;
      }
    }

    /** The synchronous part of `start`: reject with a message when the
        browser has no `getUserMedia`, else stop any held stream before
        asking for a new one. */
    method RequestStream(supported: bool) returns (rejection: Option<string>)
      requires Valid()
      modifies this
      ensures Valid()
      ensures !supported ==> rejection == Some("getUserMedia is not supported by this browser") && unchanged(this)
      ensures supported ==> rejection.None? && stream.None? && !isStreaming
      ensures supported && old(stream).Some? ==> stoppedStreams == old(stoppedStreams) + [old(stream).value]
      ensures supported && old(stream).None? ==> unchanged(this)
      ensures settings == old(settings) && canvasWidth == old(canvasWidth) && canvasHeight == old(canvasHeight)
    {
      if !supported {
        return Some("getUserMedia is not supported by this browser");
      }
      if stream.Some? {
        Stop();
      }
      rejection := None;
    }

    /** The `getUserMedia` promise resolving with stream `s`: it is held and
        shown, but the helper does not stream before the metadata loads. */
    method StreamGranted(s: int)
      requires Valid()
      modifies this
      ensures Valid()
      ensures stream == Some(s) && videoSource == Some(s) && isStreaming == old(isStreaming)
      ensures settings == old(settings) && stoppedStreams == old(stoppedStreams)
      ensures canvasWidth == old(canvasWidth) && canvasHeight == old(canvasHeight)
    {
      stream := Some(s);
      videoSource := Some(s);
    }

    /** `onloadedmetadata`: the browser fires it for a video that shows a
        stream; from then on the helper streams. */
    method MetadataLoaded()
      requires Valid() && videoSource.Some?
      modifies this
      ensures Valid()
      ensures isStreaming
      ensures stream == old(stream) && videoSource == old(videoSource)
      ensures settings == old(settings) && stoppedStreams == old(stoppedStreams)
      ensures canvasWidth == old(canvasWidth) && canvasHeight == old(canvasHeight)
    {
      isStreaming := true;
    }

    /** `takePicture`: `None` (`null`) when not streaming or when the video
        reports a zero width or height; else the canvas takes the video's
        size and the frame is encoded with the configured format and
        quality (`toDataUrl` stands for drawing the frame and
        `canvas.toDataURL`). */
    method TakePicture(videoWidth: int, videoHeight: int, toDataUrl: (int, int, string, real) -> string) returns (r: Option<string>)
      requires Valid()
      modifies this
      ensures Valid()
      ensures !old(isStreaming) ==> r.None? && unchanged(this)
      ensures old(isStreaming) && (videoWidth == 0 || videoHeight == 0) ==> r.None? && unchanged(this)
      ensures old(isStreaming) && videoWidth != 0 && videoHeight != 0 ==>
        && r == Some(toDataUrl(videoWidth, videoHeight, settings.imageFormat, settings.imageQuality))
        && canvasWidth == videoWidth && canvasHeight == videoHeight
      ensures settings == old(settings) && stream == old(stream) && videoSource == old(videoSource)
      ensures isStreaming == old(isStreaming) && stoppedStreams == old(stoppedStreams)
    {
      if !isStreaming {
        return None;
      }
      if videoWidth != 0 && videoHeight != 0 {
        canvasWidth := videoWidth;
        canvasHeight := videoHeight;
        return Some(toDataUrl(videoWidth, videoHeight, settings.imageFormat, settings.imageQuality));
      }
      return None;
    }
  }

  /** Once stopped, the helper takes no picture until a stream is granted
      again and its metadata loads. */
  method StopThenTakePicture(cam: Webcam, videoWidth: int, videoHeight: int, toDataUrl: (int, int, string, real) -> string) returns (r: Option<string>)
    requires cam.Valid()
    modifies cam
    ensures cam.Valid()
    ensures r.None? && cam.stream.None? && !cam.isStreaming
  {
    cam.Stop();
    r := cam.TakePicture(videoWidth, videoHeight, toDataUrl);
  }

  /** A `Blob` of bytes with its `type`. */
  datatype Blob = Blob(bytes: seq<Byte>, mimeType: string)

  /** A character the `Blob` constructor accepts in a type: U+0020 to
      U+007E. */
  predicate Printable(c: char)
  {
    ' ' <= c <= '~'
  }

  predicate IsUpper(c: char)
  {
    'A' <= c <= 'Z'
  }

  /** ASCII lower-casing of one character. */
  function AsciiLower(c: char): (r: char)
    ensures IsUpper(c) ==> r as int == c as int + 32
    ensures !IsUpper(c) ==> r == c
  {
    if IsUpper(c) then (c as int + 32) as char else c
  }

  /** The `type` a `Blob` keeps of the one it is given, as the Blob
      constructor of the W3C File API specifies it: the empty string when
      any character lies outside U+0020 to U+007E, else the text in ASCII
      lower case. */
  function BlobType(t: string): (r: string)
    ensures (exists i :: 0 <= i < |t| && !Printable(t[i])) ==> r == ""
    ensures (forall i :: 0 <= i < |t| ==> Printable(t[i])) ==>
      |r| == |t| && forall i :: 0 <= i < |t| ==> r[i] == AsciiLower(t[i])
  {
    if forall i :: 0 <= i < |t| ==> Printable(t[i]) then seq(|t|, i requires 0 <= i < |t| => AsciiLower(t[i]))
    else ""
  }

  /** Normalising a type twice is normalising it once, and a printable
      type without upper-case letters is kept as it is. */
  lemma BlobTypeLaws(t: string)
    ensures BlobType(BlobType(t)) == BlobType(t)
    ensures (forall i :: 0 <= i < |t| ==> Printable(t[i]) && !IsUpper(t[i])) ==> BlobType(t) == t
  {
    var r := BlobType(t);
    if forall i :: 0 <= i < |t| ==> Printable(t[i]) {
      assert forall i :: 0 <= i < |r| ==> Printable(r[i]) && !IsUpper(r[i]);
      assert BlobType(r) == r;
    }
  }

  /** Storing a character code into a `Uint8Array` keeps it modulo 256. */
  function ToByte(c: char): Byte
  {
    c as int % 256
  }

  /** The character whose code is the byte's value. */
  function FromByte(b: Byte): char
  {
    b as char
  }

  /** The byte buffer the loop fills: one byte per decoded character. */
  function Latin1Bytes(s: string): (r: seq<Byte>)
    ensures |r| == |s|
    ensures forall i :: 0 <= i < |s| ==> r[i] == s[i] as int % 256
  {
    seq(|s|, i requires 0 <= i < |s| => ToByte(s[i]))
  }

  function Latin1Text(b: seq<Byte>): (r: string)
    ensures |r| == |b|
    ensures forall i :: 0 <= i < |b| ==> r[i] as int == b[i]
  {
    seq(|b|, i requires 0 <= i < |b| => FromByte(b[i]))
  }

  /** `atob` returns one character per byte, each below 256, so the buffer
      holds those bytes exactly: reading it back gives the decoded string. */
  lemma Latin1RoundTrip(s: string)
    requires forall i :: 0 <= i < |s| ==> s[i] as int < 256
    ensures Latin1Text(Latin1Bytes(s)) == s
  {
    var t := Latin1Text(Latin1Bytes(s));
    forall i | 0 <= i < |s| ensures t[i] == s[i] {
      assert t[i] as int == s[i] as int;
    }
  }

  /** And conversely every byte buffer survives the trip through text. */
  lemma Latin1RoundTripBytes(b: seq<Byte>)
    ensures Latin1Bytes(Latin1Text(b)) == b
  {
    var t := Latin1Bytes(Latin1Text(b));
    forall i | 0 <= i < |b| ensures t[i] == b[i] {
      assert t[i] == Latin1Text(b)[i] as int % 256;
    }
  }

  /** What `atob` receives: the second comma-separated field, or, when the
      URI has no comma, `undefined`, which `atob` reads as the text
      "undefined". */
  function PayloadText(dataUri: string): (t: string)
    ensures ',' in dataUri ==> Some(t) == DataUri.Payload(dataUri)
    ensures ',' !in dataUri ==> t == "undefined"
  {
    DataUri.PayloadPresence(dataUri);
    match DataUri.Payload(dataUri)
    case Some(p) => p
    case None => "undefined"
  }

  /** `dataURItoBlob` as a value; `None` where it throws (`atob` rejects
      its input, or the header has no ':'). */
  function BlobOf(dataUri: string, atob: string -> Option<string>): (r: Option<Blob>)
    ensures r.Some? <==> atob(PayloadText(dataUri)).Some? && DataUri.MimeType(dataUri).Some?
  {
    match atob(PayloadText(dataUri))
    case None => None
    case Some(byteString) =>
      match DataUri.MimeType(dataUri)
      case None => None
      case Some(mime) => Some(Blob(Latin1Bytes(byteString), BlobType(mime)))
  }

  /** A URI of the form a canvas produces converts to the decoded payload
      under its MIME type as the `Blob` normalises it; a printable type
      in lower case, as canvases produce, is kept exactly. */
  lemma BlobOfMadeUri(mime: string, payload: string, atob: string -> Option<string>)
    requires ',' !in mime && ':' !in mime && ';' !in mime
    requires ',' !in payload
    requires atob(payload).Some?
    ensures BlobOf(DataUri.Make(mime, payload), atob) == Some(Blob(Latin1Bytes(atob(payload).value), BlobType(mime)))
    ensures (forall i :: 0 <= i < |mime| ==> Printable(mime[i]) && !IsUpper(mime[i])) ==>
      BlobOf(DataUri.Make(mime, payload), atob).value.mimeType == mime
  {
    DataUri.MakeRoundTrip(mime, payload);
    BlobTypeLaws(mime);
  }

  /** `dataURItoBlob`: decode the payload, read the MIME type, and fill a
      fresh byte array of the decoded length character by character. */
  method DataUriToBlob(dataUri: string, atob: string -> Option<string>) returns (r: Option<Blob>)
    ensures r == BlobOf(dataUri, atob)
    ensures r.Some? ==> |r.value.bytes| == |atob(PayloadText(dataUri)).value|
  {
    var decoded := atob(PayloadText(dataUri));
    if decoded.None? {
      return None;
    }
    var byteString := decoded.value;
    var mime := DataUri.MimeType(dataUri);
    if mime.None? {
      return None;
    }
    var ia := new Byte[|byteString|];
    var i := 0;
    while i < |byteString|
      invariant 0 <= i <= |byteString|
      invariant forall k :: 0 <= k < i ==> ia[k] == ToByte(byteString[k])
    {
      ia[i] := ToByte(byteString[i]);
      i := i + 1;
    }
    assert ia[..] == Latin1Bytes(byteString);
    r := Some(Blob(ia[..], BlobType(mime.value)));
  }
}
