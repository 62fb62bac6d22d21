# chrom.alyze colour picker: a Dafny model of `script.js`

The picker is a browser page. It shows a live camera stream or an uploaded
image on a canvas, and shows the colour under the mouse as hex, `rgb(...)` and
`cmyk(...)` text. This project models the two parts of `script.js` that hold
logic of their own:

- `text.dfy` (module `Text`). Whole numbers written in decimal, as a template
  literal writes `${n}`. A parser for texts of the form `name(a, b, c)` is the
  partner definition: reading a read-out back gives the numbers that were
  written into it.
- `color_convert.dfy` (module `ColorConvert`). The conversion helpers:
  - `rgbToHex`, with its inner `toHex`. Each step is written out: the base-16
    digits, the zero put in front, the cut to the last two characters, and the
    upper-casing.
  - `rgbToCmyk`, with its inner `format`. It follows the code's own steps over
    Dafny's exact `real` numbers: the complements, their minimum `k`, the
    rescaling by `1 - k`, and rounding to a whole percentage as
    `floor(100 val + 1/2)`.
  - The `rgb(...)` text that `updateColorInfo` builds.
  - The partners: a `#RRGGBB` decoder (`ParseHex`) and a whole-number closed
    form of the CMYK percentages (`CmykReference`). With `M` the largest
    channel, each of C, M and Y is `floor((200 (M - channel) + M) / (2 M))`,
    and K is `floor((200 (255 - M) + 255) / 510)`.
- `color_picker.dfy` (module `ColorPicker`). The page state behind the
  handlers, as the class `Page`:
  - the `videoStream` reference, and `video.srcObject`;
  - the hidden flags of the video, the capture button and the canvas;
  - the canvas width and height;
  - the three read-out texts and the swatch's background colour.

  Each handler is a method, and what the browser answers is a parameter:
  - how `getUserMedia` settled;
  - whether a file was chosen and what size it decoded to;
  - the video's size.

  Streams and tracks are objects, and stopping a stream is the `forEach` loop
  over its tracks. The ghost field `effects` records the order in which the
  handlers ask the browser to stop tracks, request the camera and draw. The
  invariant `Valid` says that every stream the page ever held is stopped,
  except the one it holds now.

Three behaviours of the code that the model keeps as they are:

- A failed camera start leaves `videoStream` pointing at the stream it has
  just stopped (`Page.StartCamera`).
- The photo handler checks no state. It runs the same way whatever the page
  shows (`Page.CapturePhoto`).
- The rounding rounds halves up, toward +infinity (`Format`).

## Model

| member | source | states |
|---|---|---|
| `Text.Decimal` | script.js:99 | the text of a number is all digits, at least one, with a leading `0` only for zero |
| `Text.DecimalValue` | script.js:99 | reading the digits back gives the number again |
| `Text.DecimalInjective` | script.js:99 | two different numbers never get the same text |
| `Text.IntText` | script.js:133 | the decimal text of a whole number, with a minus sign exactly when it is negative |
| `ColorConvert.Base16` | script.js:113 | the lower-case base-16 digits of a channel, no leading zeros: one digit exactly below 16, at most two below 256 |
| `ColorConvert.SliceLastTwo` | script.js:113 | the last two characters of a string, or all of a shorter one: its length is the smaller of 2 and the string's length |
| `ColorConvert.ToHex` | script.js:113 | the zero-padded base-16 digits of a channel, always two characters |
| `ColorConvert.ToUpperCase` | script.js:114 | the result has the same length and no lower-case letter; each lower-case letter becomes its own capital and every other character stays as it was |
| `ColorConvert.RgbToHex` | script.js:112-115 | `#` and the three padded channel texts, upper-cased; what it yields is stated by the lemmas below |
| `ColorConvert.ToHexPads` | script.js:113 | `toHex` gives exactly two characters: `'0'` and the one digit below 16, the number's own two base-16 digits from 16 to 255; in both cases the digits of `c / 16` and `c % 16` |
| `ColorConvert.RgbToHexChars` | script.js:112-115 | character by character, the result is `#` followed by the upper-cased digits of `r / 16`, `r % 16`, `g / 16`, `g % 16`, `b / 16` and `b % 16` |
| `ColorConvert.RgbToHexShape` | script.js:112-115 | the result has 7 characters: `#` followed by six upper-case hex digits |
| `ColorConvert.RgbToHexRoundTrip` | script.js:112-115 | decoding the three digit pairs gives back `(r, g, b)` |
| `ColorConvert.ParseHexInverse` | script.js:112-115 | every `#RRGGBB` string with upper-case digits is the result for the channels it decodes to, so the map onto these strings is onto |
| `ColorConvert.RgbToHexInjective` | script.js:112-115 | different colours give different hex texts |
| `ColorConvert.RgbToHexExample` | script.js:112-115 | (255, 0, 128) gives `#FF0080` |
| `ColorConvert.RgbText` | script.js:99 | the word `rgb` and the three channels in decimal, separated by a comma and a space, in parentheses; used for both the read-out and the swatch |
| `ColorConvert.RgbTextRoundTrip` | script.js:99 | the `rgb(...)` text names r, g and b in that order, in decimal, and nothing else |
| `ColorConvert.RgbToCmyk` | script.js:117-133 | the fixed text `cmyk(0, 0, 0, 100)` for black, otherwise the text of `CmykPercentages` |
| `ColorConvert.CmykPercentages` | script.js:122-133 | the code's steps for a non-black colour, in exact arithmetic: the complements of the channels, their minimum `k`, each complement less `k` divided by `1 - k`, all four rounded |
| `ColorConvert.Format` | script.js:131 | the nearest whole percentage, halves up: `p - 1/2 <= 100 val < p + 1/2` |
| `ColorConvert.CmykText` | script.js:133 | the word `cmyk` and the four percentages in decimal, separated by a comma and a space, in parentheses |
| `ColorConvert.Min3` | script.js:126 | `Math.min` of three values is one of them and is at most each of them |
| `ColorConvert.FormatQuotient` | script.js:131 | rounding `100 num / den` to the nearest whole number, halves up, equals the whole-number formula `floor((200 num + den) / (2 den))` |
| `ColorConvert.CmykPercentagesExact` | script.js:122-133 | for a non-black colour, the code's steps give the closed form: K from `255 - max`, each of C, M and Y from `max - channel` over `max` |
| `ColorConvert.CmykPercentagesBounds` | script.js:122-133 | for a non-black colour, all four percentages lie in [0, 100]; a channel equal to the largest one gets 0; K is `100 (255 - max) / 255` rounded, although the code computes K as the minimum of the complements |
| `ColorConvert.RoundPercentBounds` | script.js:131 | the rounded percentage of a fraction in [0, 1] lies in [0, 100]; a fraction of 0 gives 0 and a fraction of 1 gives 100 |
| `ColorConvert.CmykReferenceBounds` | script.js:117-133 | for every input, black included, the four closed-form percentages lie in [0, 100] |
| `ColorConvert.RgbToCmykText` | script.js:117-133 | for every input, black included, the `cmyk(...)` text lists the four closed-form percentages in order, each in [0, 100] |
| `ColorConvert.BlackText` | script.js:118-120 | the literal of the black case is the text of the percentages 0, 0, 0, 100 |
| `ColorConvert.RgbToCmykBlack` | script.js:118-120 | (0, 0, 0) gives exactly `cmyk(0, 0, 0, 100)`, and no division is performed |
| `ColorConvert.RgbToCmykWhite` | script.js:122-133 | (255, 255, 255) gives `cmyk(0, 0, 0, 0)` |
| `ColorConvert.RgbToCmykRed` | script.js:122-133 | (255, 0, 0) gives `cmyk(0, 100, 100, 0)` |
| `ColorPicker.Track.Stop` | script.js:24 | stopping a track ends it |
| `ColorPicker.MediaStream.StopAllTracks` | script.js:24 | after the loop over the tracks, every track of the stream has ended |
| `ColorPicker.Page.constructor` | script.js:16 | the page starts out holding no stream, and has asked the browser for nothing |
| `ColorPicker.Page.StopVideoStream` | script.js:23-25 | if a stream is held, all its tracks are stopped and a stop is recorded; without a stream nothing happens |
| `ColorPicker.Page.StartCamera` | script.js:20-36 | the held stream is stopped before the camera is requested. On success, the new stream is held and is the video's source; video and button are shown and the canvas is hidden. On failure, the reference and all flags are unchanged, so the stopped stream is still referenced. No stream other than the held one is left running |
| `ColorPicker.Page.CapturePhoto` | script.js:38-55 | the canvas takes the video's size, and the frame is drawn before the stream is stopped. The stream reference is not cleared. Video and button are hidden and the canvas is shown |
| `ColorPicker.Page.UploadImage` | script.js:59-80 | without a file, or when decoding fails, nothing changes. A decoded W×H image makes the canvas W×H; the canvas is shown and video and button are hidden. The stream is neither stopped nor dropped |
| `ColorPicker.Page.UpdateColorInfo` | script.js:98-108 | the swatch colour and the rgb read-out get the same `rgb(...)` text; the hex and cmyk read-outs get the results of `rgbToHex` and `rgbToCmyk` |
| `ColorPicker.StartCameraTwice` | script.js:20-36 | starting the camera twice, both requests succeeding, on a page in any state: the stream held before is stopped before the first request, and the first stream is stopped before the second request. The second stream, live on arrival and sharing no track with the others, stays live and is the only stream left running |

## Left out

- Looking up the DOM elements, registering the listeners, the mechanics of `classList`, `alert` and `console.error` (script.js:1-14, 33-34). Visibility is three booleans, and the error notice is not modelled.
- `navigator.mediaDevices.getUserMedia`, `FileReader` and `Image` decoding (script.js:27, 63-79). These are browser calls. Their outcomes are method parameters: `Acquisition`, `Upload`, and the video's size in `CapturePhoto`.
- Concurrency. Each handler runs as one step, as if its `await` or callbacks settled before the next event. So the model leaves out one case: two start-camera clicks before the first request settles. Both clicks stop the stream the page already holds, if any, before either request settles. Whichever request settles first has its stream overwritten when the other settles, and that stream is never stopped.
- Pixel contents. The `drawImage` calls (script.js:44, 70) are only recorded as `DrawVideoFrame` and `DrawImage` effects with their sizes. The `getImageData` read (script.js:91) is not modelled at all, so neither is the colour under the mouse, nor the zero default for a point outside the drawn region.
- The mousemove handler (script.js:84-96). It computes coordinates with `Math.floor` on floating-point layout values and reads a pixel. Only the `updateColorInfo` call it ends with is modelled, as `Page.UpdateColorInfo`.
- The initial hidden flags, canvas size and read-out texts come from the page's HTML, which is not part of this model. The constructor takes the flags and the size as parameters and starts the texts empty.
- ColorConvert.CmykPercentages: computes in exact rational arithmetic, not IEEE-754 doubles. Where `100 * v` lands within rounding error of a `.5` tie, the browser's result may differ by one from the model's.

