/** The page's three event handlers (start camera, take photo, upload image) and
    the colour read-out, as a state machine over the page's state: the camera
    stream it holds, the hidden flags of the video, the capture button and the
    canvas, the canvas size and the read-out texts. What the browser answers
    (a stream or an error, the chosen file and its decoded size, the video's
    size) comes in as parameters. */
module ColorPicker {
  import opened ColorConvert

  datatype TrackState = Live | Ended

  /** A MediaStreamTrack: once stopped it stays ended. */
  class Track {
    var readyState: TrackState

    constructor ()
      ensures readyState == Live
    {
      readyState := Live;
    }

    method Stop()
      modifies this
      ensures readyState == Ended
    {
      readyState := Ended;
    }
  }

  /** A MediaStream: a fixed list of tracks. */
  class MediaStream {
    const tracks: seq<Track>

    constructor (tracks: seq<Track>)
      ensures this.tracks == tracks
    {
      this.tracks := tracks;
    }

    function TrackSet(): set<Track> {
      set t | t in tracks
    }

    /** Every track of the stream has ended: the camera is released. */
    predicate Stopped()
      reads TrackSet()
    {
      forall t :: t in tracks ==> t.readyState == Ended
    }

    /** Stops each track of the stream, one after the other. */
    method StopAllTracks()
      modifies TrackSet()
      ensures Stopped()
    {
      for i := 0 to |tracks|
        invariant forall j :: 0 <= j < i ==> tracks[j].readyState == Ended
      {
        tracks[i].Stop();
      }
    }
  }

  /** Which surface the page shows: the live video with its capture button, the
      canvas alone, or any other combination of the three flags (the page's
      initial one among them). */
  datatype View = LiveCapture | StaticDisplay | Other

  /** What the handlers ask of the browser, in order. */
  datatype Effect =
    | StopTracks(stream: MediaStream)
    | RequestCamera
    | DrawVideoFrame(width: nat, height: nat)
    | DrawImage(width: nat, height: nat)

  /** How getUserMedia settled. */
  datatype Acquisition = Acquired(stream: MediaStream) | AcquireFailed

  /** What became of a change of the file input: no file chosen, a file the
      reader or the image decoder could not turn into an image, or an image of
      the given natural size. */
  datatype Upload = NoFile | DecodeFailed | Decoded(width: nat, height: nat)

  function StopEffect(s: MediaStream?): seq<Effect> {
    if s == null then [] else [StopTracks(s)]
  }

  class Page {
    var videoStream: MediaStream?
    var videoSrcObject: MediaStream?
    var videoHidden: bool
    var clickPhotoHidden: bool
    var canvasHidden: bool
    var canvasWidth: nat
    var canvasHeight: nat
    var swatchColor: string
    var rgbText: string
    var hexText: string
    var cmykText: string

    /** Every stream the page has ever held. */
    ghost var acquired: set<MediaStream>
    /** The requests made of the browser so far, in order. */
    ghost var effects: seq<Effect>

    function View(): View
      reads this
    {
      if !videoHidden && !clickPhotoHidden && canvasHidden then LiveCapture
      else if videoHidden && clickPhotoHidden && !canvasHidden then StaticDisplay
      else Other
    }

    function CurrentTracks(): set<Track>
      reads this
    {
      if videoStream == null then {} else videoStream.TrackSet()
    }

    ghost function AcquiredTracks(): set<Track>
      reads this
    {
      set s, t | s in acquired && t in s.tracks :: t
    }

    /** No stream leaks: every stream the page ever held, except the one it
        holds now, has all its tracks stopped. */
    ghost predicate Valid()
      reads this, AcquiredTracks()
    {
      && (videoStream != null ==> videoStream in acquired)
      && forall s, t :: s in acquired && s != videoStream && t in s.tracks ==> t.readyState == Ended
    }

    constructor (videoHidden: bool, clickPhotoHidden: bool, canvasHidden: bool,
                 canvasWidth: nat, canvasHeight: nat)
      ensures Valid()
      ensures videoStream == null && videoSrcObject == null && acquired == {} && effects == []
      ensures this.videoHidden == videoHidden && this.clickPhotoHidden == clickPhotoHidden
      ensures this.canvasHidden == canvasHidden
      ensures this.canvasWidth == canvasWidth && this.canvasHeight == canvasHeight
      ensures swatchColor == rgbText == hexText == cmykText == ""
    {
      videoStream, videoSrcObject := null, null;
      this.videoHidden, this.clickPhotoHidden, this.canvasHidden := videoHidden, clickPhotoHidden, canvasHidden;
      this.canvasWidth, this.canvasHeight := canvasWidth, canvasHeight;
      swatchColor, rgbText, hexText, cmykText := "", "", "", "";
      acquired, effects := {}, [];
    }

    /** Stops every track of the held stream, if the page holds one. */
    method StopVideoStream()
      requires Valid()
      modifies this`effects, CurrentTracks()
      ensures Valid()
      ensures videoStream != null ==> videoStream.Stopped()
      ensures effects == old(effects) + StopEffect(videoStream)
    {
      if videoStream != null {
        videoStream.StopAllTracks();
        effects := effects + [StopTracks(videoStream)];
      }
    }

    /** The start-camera click handler. Any stream held is stopped before the
        new one is requested. On success the new stream is held and shown with
        the capture button, and the canvas is hidden; on failure nothing else
        changes, so the page still holds the stream it just stopped. */
    method StartCamera(outcome: Acquisition)
      requires Valid()
      modifies this, CurrentTracks()
      ensures Valid()
      ensures old(videoStream) != null ==> old(videoStream).Stopped()
      ensures effects == old(effects) + StopEffect(old(videoStream)) + [RequestCamera]
      ensures canvasWidth == old(canvasWidth) && canvasHeight == old(canvasHeight)
      ensures swatchColor == old(swatchColor) && rgbText == old(rgbText)
      ensures hexText == old(hexText) && cmykText == old(cmykText)
      ensures outcome.Acquired? ==>
        && videoStream == outcome.stream && videoSrcObject == outcome.stream
        && acquired == old(acquired) + {outcome.stream}
        && !videoHidden && !clickPhotoHidden && canvasHidden && View() == LiveCapture
      ensures outcome.AcquireFailed? ==>
        && videoStream == old(videoStream) && videoSrcObject == old(videoSrcObject)
        && acquired == old(acquired)
        && videoHidden == old(videoHidden) && clickPhotoHidden == old(clickPhotoHidden)
        && canvasHidden == old(canvasHidden)
    {
      StopVideoStream();
      effects := effects + [RequestCamera];
      match outcome
      case Acquired(stream) =>
        videoStream := stream;
        acquired := acquired + {stream};
        videoSrcObject := videoStream;
        videoHidden := false;
        clickPhotoHidden := false;
        canvasHidden := true;
      case AcquireFailed =>
    }

    /** The click-photo handler: the canvas takes the video's size and the
        current frame, the held stream is stopped but stays referenced, and the
        canvas replaces the video and the capture button. */
    method CapturePhoto(videoWidth: nat, videoHeight: nat)
      requires Valid()
      modifies this, CurrentTracks()
      ensures Valid()
      ensures canvasWidth == videoWidth && canvasHeight == videoHeight
      ensures videoStream == old(videoStream) && videoSrcObject == old(videoSrcObject)
      ensures acquired == old(acquired)
      ensures videoStream != null ==> videoStream.Stopped()
      ensures effects == old(effects) + [DrawVideoFrame(videoWidth, videoHeight)] + StopEffect(videoStream)
      ensures videoHidden && clickPhotoHidden && !canvasHidden && View() == StaticDisplay
      ensures swatchColor == old(swatchColor) && rgbText == old(rgbText)
      ensures hexText == old(hexText) && cmykText == old(cmykText)
    {
      canvasWidth, canvasHeight := videoWidth, videoHeight;
      effects := effects + [DrawVideoFrame(canvasWidth, canvasHeight)];
      StopVideoStream();
      videoHidden := true;
      clickPhotoHidden := true;
      canvasHidden := false;
    }

    /** The upload-image change handler, once the reader and the decoder have
        settled. Without a file, or when decoding fails, nothing changes. A
        decoded image sizes the canvas, is drawn, and the canvas replaces the
        video and the capture button. A running camera stream is neither
        stopped nor dropped. */
    method UploadImage(upload: Upload)
      requires Valid()
      modifies this
      ensures Valid()
      ensures videoStream == old(videoStream) && videoSrcObject == old(videoSrcObject)
      ensures acquired == old(acquired)
      ensures unchanged(CurrentTracks())
      ensures !upload.Decoded? ==> unchanged(this)
      ensures upload.Decoded? ==>
        && canvasWidth == upload.width && canvasHeight == upload.height
        && effects == old(effects) + [DrawImage(upload.width, upload.height)]
        && videoHidden && clickPhotoHidden && !canvasHidden && View() == StaticDisplay
        && swatchColor == old(swatchColor) && rgbText == old(rgbText)
        && hexText == old(hexText) && cmykText == old(cmykText)
    {
      match upload
      case NoFile =>
      case DecodeFailed =>
      case Decoded(width, height) =>
        canvasWidth, canvasHeight := width, height;
        effects := effects + [DrawImage(width, height)];
        canvasHidden := false;
        videoHidden := true;
        clickPhotoHidden := true;
    }

    /** updateColorInfo(r, g, b): the swatch and the rgb read-out get the same
        "rgb(...)" text, the other read-outs the hex and cmyk texts. */
    method UpdateColorInfo(r: Byte, g: Byte, b: Byte)
      requires Valid()
      modifies this`swatchColor, this`rgbText, this`hexText, this`cmykText
      ensures Valid()
      ensures swatchColor == RgbText(r, g, b) && rgbText == RgbText(r, g, b)
      ensures hexText == RgbToHex(r, g, b) && cmykText == RgbToCmyk(r, g, b)
    {
      var rgbString := RgbText(r, g, b);
      var hexString := RgbToHex(r, g, b);
      var cmykString := RgbToCmyk(r, g, b);
      swatchColor := rgbString;
      rgbText := rgbString;
      hexText := hexString;
      cmykText := cmykString;
    }
  }

  /** Pressing "start camera" twice, both requests succeeding: whatever stream
      the page held is stopped before the first request, the first stream is
      stopped before the second request, and the second stream, live when it
      arrives, is the one stream left running. */
  method StartCameraTwice(page: Page, first: MediaStream, second: MediaStream)
    requires page.Valid()
    requires forall t :: t in second.tracks ==> t.readyState == Live
    requires forall t :: t in second.tracks ==> t !in first.tracks && t !in page.CurrentTracks()
    modifies page, page.CurrentTracks(), first.TrackSet()
    ensures page.Valid() && page.videoStream == second && first.Stopped()
    ensures forall t :: t in second.tracks ==> t.readyState == Live
    ensures page.effects ==
      old(page.effects) + StopEffect(old(page.videoStream)) + [RequestCamera, StopTracks(first), RequestCamera]
  {
    page.StartCamera(Acquired(first));
    page.StartCamera(Acquired(second));
  }
}
