# ZoomBots core, modelled in Dafny

This project models two pieces of the conference bot, the ones whose
behaviour can be stated without a browser or a camera.

- **The chat scraper** (`ZoomBot.get_messages`). Every chat entry on the
  Zoom web client has an `aria-label` shaped like `Вы Кому Все, 08:48, uu`
  (Russian client) or `Alice to Everyone, 08:48, hi` (English client).
  The bot does four things to each label:
  - cuts it at its first two commas into from/to, time and text;
  - picks the separator: ` Кому ` if it occurs in the from/to piece, ` to ` otherwise;
  - splits the from/to piece on every occurrence of that separator and unpacks the result into exactly two names;
  - strips every field.

  A label that does not unpack raises `ValueError`, which ends `get_messages`
  with no list returned.
- **The local media server** (`MediaServer.py`). A `MediaServer` object keeps
  the latest frame (initially a zero frame of shape `(width, height, 3)`)
  and publishes it into the module-level variable `last_frame`. A static
  method sets the module-level `audio_file_path`. One iteration of the
  `generate_video` loop emits nothing while `last_frame` is `None`.
  Otherwise it emits one multipart part, made of four pieces:
  - the delimiter line `--frame`;
  - an `X-Timestamp` header and a `Content-Type: image/jpeg` header;
  - a blank line;
  - the JPEG bytes of the frame followed by CRLF.

Modules:

- `Wrappers`: `Option` and `Result`.
- `PyStr`: Python's `str.find`, `str.split(sep, maxsplit)`, `str.count`,
  `str.join` and `str.strip`, stated generically over sequences.
  - `Find` returns `None` where Python returns -1.
  - `Split` cuts left to right at non-overlapping occurrences, as CPython does.
  - `Strip` removes the characters that `str.isspace` accepts.
- `ZoomChat`: the label parser, its error cases, its inverse (`Render`), and
  the `get_messages` loop as a method.
- `MediaServer`: the module globals as a `StreamState` object, the
  `MediaServer` class, the generator step as a function, and a reader for one
  multipart part (section 5.1.1 of RFC 2046) that serves as the step's partner.

Where the code and the design description differ, the model follows the
code:

- The zero frame is built with shape `(width, height, 3)`, in that order.
  `Zeros(width, height)` keeps that order.
- When no frame has been published, the generator spins without yielding.
  `GenerateVideoStep` returns `None`.

## Model

| member | source | states |
|---|---|---|
| PyStr.Find | ZoomBot.py:212 | `find` gives the lowest index where the needle occurs, and gives `None` (Python's -1) exactly when it occurs nowhere |
| PyStr.Split | ZoomBot.py:211 | `split` gives at least one piece, and at most `maxsplit + 1` pieces when `maxsplit` is not negative |
| PyStr.SplitJoin | ZoomBot.py:211 | joining the pieces of a split with the separator gives back the original string, for every `maxsplit` |
| PyStr.SplitPiecesAbsent | ZoomBot.py:211 | every piece of a split except the last holds no occurrence of the separator |
| PyStr.SplitLastAbsent | ZoomBot.py:213 | when the split was not stopped by `maxsplit` (no limit, or fewer pieces than the limit allows), the last piece also holds no separator |
| PyStr.SplitLength | ZoomBot.py:211-213 | the number of pieces is one plus the non-overlapping occurrence count of the separator, capped at `maxsplit` |
| PyStr.CountElement | ZoomBot.py:211 | for a one-character separator, the occurrence count is the number of times the character appears |
| PyStr.SplitOnceAt | ZoomBot.py:213 | a string with a separator at its first occurrence and none after it splits into exactly the two pieces around it |
| PyStr.LStrip | ZoomBot.py:214-215 | left strip keeps a suffix, drops only whitespace, and leaves no whitespace at the front |
| PyStr.RStrip | ZoomBot.py:214-215 | right strip keeps a prefix, drops only whitespace, and leaves no whitespace at the back |
| PyStr.Strip | ZoomBot.py:214-215 | `strip` is no longer than its input and leaves neither end whitespace |
| PyStr.StripSlice | ZoomBot.py:214-215 | what `strip` keeps is a contiguous slice of its input with only whitespace on either side |
| PyStr.StripPadded | ZoomBot.py:214-215 | stripping a stripped string padded with whitespace on both sides gives back that string |
| PyStr.StripIdempotent | ZoomBot.py:214-215 | stripping twice is the same as stripping once |
| ZoomChat.AsDict | ZoomBot.py:214-215 | the appended dict has exactly the keys from, to, time and text, holding the four fields |
| ZoomChat.Separator | ZoomBot.py:212-213 | the separator is ` Кому ` exactly when that text occurs in the from/to piece, and ` to ` otherwise |
| ZoomChat.ParseLabel | ZoomBot.py:210-215 | a parsed message has all four fields stripped, and no comma in from, to or time |
| ZoomChat.TooFewFieldsExactly | ZoomBot.py:211 | unpacking into three pieces fails exactly when the label has fewer than two commas |
| ZoomChat.CommaPieces | ZoomBot.py:211 | the label is cut at its first two commas only, and later commas stay in the text |
| ZoomChat.ParseFields | ZoomBot.py:211-215 | with two commas present, the outcome depends only on the separator count in the from/to piece: none gives `NoSeparator`, exactly one gives success, two or more give `TooManySeparators`; on success, from and to are the stripped text on either side of the first separator, and time and text are the stripped second and third pieces |
| ZoomChat.RenderRoundTrip | ZoomBot.py:210-215 | parsing inverts the client's rendering of a message, for stripped fields with no stray commas or separators |
| ZoomChat.WorkedExample | ZoomBot.py:210 | the label `Вы Кому Все, 08:48, uu` parses to from `Вы`, to `Все`, time `08:48` and text `uu` |
| ZoomChat.OverlappingSeparator | ZoomBot.py:213 | in `Go to to Bob` two occurrences of ` to ` overlap; the split cuts at the leftmost, so the recipient is `to Bob` |
| ZoomChat.GetMessages | ZoomBot.py:205-216 | the result is a list exactly when every label parses; it then holds one message per label, in order; otherwise it is the error of the first label that fails |
| MediaServer.Zeros | MediaServer.py:39 | the zero frame has shape (d0, d1, 3) and every value 0.0 |
| MediaServer.StreamState.constructor | MediaServer.py:9-10 | the module state starts with no frame and an empty audio path |
| MediaServer.MediaServer.constructor | MediaServer.py:35-40 | the server stores port, width and height, holds a zero frame of shape (width, height, 3), publishes it, and leaves the audio path alone |
| MediaServer.MediaServer.AddNextFrame | MediaServer.py:42-44 | the new frame replaces the held frame and is the published frame, and the audio path is unchanged |
| MediaServer.MediaServer.AddAudioPath | MediaServer.py:46-49 | the module audio path becomes the given path, and the published frame is unchanged |
| MediaServer.MediaServer.UpdateStream | MediaServer.py:51-53 | the published frame becomes the held frame, and the audio path is unchanged |
| MediaServer.PublishScenario | MediaServer.py:34-53 | after construction, several publishes and several audio-path updates, the module state holds the last frame published and the last path set |
| MediaServer.GenerateVideoStep | MediaServer.py:15-19 | a generator iteration yields a part exactly when `last_frame` is not `None` |
| MediaServer.VideoBoundary | MediaServer.py:25 | the mimetype of the video response declares the boundary `frame` |
| MediaServer.PartRoundTrip | MediaServer.py:17-19 | every part reads back, under the declared boundary, into exactly the timestamp header and the `Content-Type: image/jpeg` header, with the JPEG bytes as its body |
| MediaServer.StepCarriesFrame | MediaServer.py:15-19 | a generator iteration with a frame present yields a part whose body is exactly that frame's encoding |

## Left out

- Selenium and the browser are not modelled: joining the meeting, clicking the chat button, mouse moves, waits, `is_connected`, `screenshot`, `send_message`. They depend on a live page.
- GetMessages: takes the labels directly, in page order. Finding the elements (ZoomBot.py:205) is not modelled, and neither is `get_attribute` returning `None`, which makes Python raise `AttributeError`.
- GetMessages: reports which `ValueError` ends the call (too few fields, no separator, too many separators), not the exception's message text.
- Flask routing, the SSL context, `run` and the `/audio_file` handler are not modelled. The handler's file read (MediaServer.py:28-31) is I/O.
- The `while True` loop of `generate_video` and concurrent clients are not modelled. The model covers a single iteration.
- `cv2.imencode` is a function parameter, so JPEG content is not interpreted. Frame element values are not interpreted either.
- `time.time()` is not modelled. The timestamp text is a parameter.
- PartRoundTrip: requires only that the timestamp contain no CR. A float's `str` always meets that.
- The media server shares its frame by reference with the caller, as numpy arrays do. The model copies frames as values, so it does not capture aliasing.
- MediaServer.constructor: `width` and `height` are `nat`. numpy raises on negative dimensions, so the error path for those is not modelled.
- Ascii: reduces each character code modulo 256. Every text it is applied to is ASCII, so this never changes a character.
- The `port` field is stored and never read, because `run` is not modelled.
