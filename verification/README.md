# Loudness tool front end: a Dafny model of its client logic

The front end lets a user pick an audio file and loudness settings and send them to a remote
normalisation service. Each successful job adds a row to a results table, and each row offers
a download of the processed MP3. All of it lives in `src/App.jsx`. This project models the
four pieces of that file that carry logic:

- **`truncateMiddle`** (module `Truncate`). It cuts the middle out of a long file name and puts
  `...` there. The limit is 18 code units for any name with a non-ASCII character and
  `maxLength` (30 at both call sites) otherwise.
- **The display name** (module `FileNames`). The regex `/\.[^/.]+$/` removes the last
  extension. Then the optional `prefix_` and `_suffix` are added, and `.mp3` is appended.
- **The submission state machine** (module `Submission`). This covers the form's configuration,
  the selected file, the `loading` flag and the append-only `results`. One press of the submit
  button is `Begin`, which sends the request and raises the flag. `Settle` then processes the
  response: on success it appends a row, on failure it shows an alert, and in every case it
  lowers the flag. Form edits and whole sequences of user events are modelled too.
- **The download conversion** (module `Download`). `atob`'s output is copied unit by unit into
  a byte array (`Uint8Array` keeps each number modulo 256) and saved as `audio/mpeg`.

JavaScript strings are modelled as sequences of UTF-16 code units (`JsStrings.JsString`),
because `length`, `slice` and the non-unicode regex all count code units. `slice` follows
`String.prototype.slice` as ECMA-262 defines it: negative indices count from the end, and `slice(-0)` is the
whole string. `Math.floor((limit - 3) / 2)` is Dafny's `/`, since the divisor is positive.
The select boxes' domains are the subset types `SampleRate` (8000 … 48000 Hz) and `Bitrate`
(64 … 320 kbps) plus the datatype `Channel`. Their defaults are in
`Submission.DefaultConfig`: −15 LUFS, −2.0 dBTP, 48000 Hz, 192 kbps, stereo, and an empty
prefix and suffix.

Notes on the code's behaviour that the model keeps:

- The comment at src/App.jsx:11 speaks of full-width (18) and half-width (30) characters, but
  the test is `\P{ASCII}`, which matches any code point above 127. So every non-ASCII
  character brings in the 18 limit, half-width katakana and accented Latin letters included.
  Control characters count as ASCII.
- The code never clamps the half length (see Findings).
- No re-entrancy guard exists inside `handleSubmit`. Only the disabled submit button
  (line 210) prevents a second submit. So `Begin` and `Submit` require `!loading` instead of
  rejecting.
- An invalid base64 payload is not caught. `atob` throws out of the click handler. No alert is
  shown and the row stays. `Download.SaveArtifact` returns `DecodeFailed` and produces no
  alert text.
- A body that cannot be parsed, whether the status is OK or not, rejects `res.json()` with its
  own message. That case is modelled as `Response.Thrown` and gets the generic
  `エラーが発生しました: …` alert.
- The server's message is wrapped as `FFmpegエラー: …` before the `catch` block inspects it.
  A server message that contains "Failed to fetch" therefore produces the connectivity alert.

## Model

| member | source | states |
|---|---|---|
| JsStrings.Slice | src/App.jsx:18 | `slice(start, end)` is `s[start..end]` for in-range indices, empty when the end precedes the start, and never longer than `s` |
| JsStrings.SliceFrom | src/App.jsx:18 | `slice(-k)` is the last `k` units for `0 < k <= length`; `slice(k)` drops the first `k` units |
| JsStrings.IncludesAfterPrefix | src/App.jsx:63-84 | a message that mentions a text still mentions it after the `FFmpegエラー: ` prefix is put in front |
| Truncate.EffectiveLimit | src/App.jsx:14-15 | the limit is 18 as soon as one code unit is above 127, and `maxLength` for a pure-ASCII string |
| Truncate.Half | src/App.jsx:17 | the half is `floor((limit - 3) / 2)`: the largest `h` with `2h <= limit - 3` |
| Truncate.TruncateMiddle | src/App.jsx:12-19 | a string within its effective limit (18 if any unit is non-ASCII, else `maxLength`) comes back unchanged, empty included; for limits of at least 5 a longer one becomes its first `h` units, `...`, and its last `h` units, with `h = floor((limit-3)/2)` |
| Truncate.TruncateLength | src/App.jsx:15-18 | for `maxLength >= 5` the result never exceeds the effective limit: 17 units for a long non-ASCII name, `maxLength` or `maxLength - 1` for a long ASCII one (29 at 30) |
| Truncate.TruncateKeepsAscii | src/App.jsx:14-18 | truncating an ASCII string gives an ASCII string, at every limit |
| Truncate.TruncateIdempotent | src/App.jsx:12-19 | for `maxLength >= 17`, truncating a truncated string changes nothing |
| Truncate.TruncateMiddleGrowsAtShortLimits | src/App.jsx:17-18 | for limit 3 or 4 a long ASCII string becomes `...` followed by the whole string, which is longer than the input |
| Truncate.TruncateMiddleAbcdeAtFour | src/App.jsx:17-18 | `truncateMiddle("abcde", 4)` is `"...abcde"` |
| Truncate.TruncateMiddleClamped | src/App.jsx:12-19 | with the half clamped at 0, a result has at most `max(limit, 3)` units and is a prefix of the input, `...`, and a suffix of the input; short strings come back unchanged |
| Truncate.ClampedAgrees | src/App.jsx:12-19 | for every `maxLength >= 5`, the 30 of both call sites included, the clamped function equals the function as written |
| FileNames.ExtensionUnique | src/App.jsx:69 | the pattern `/\.[^/.]+$/` can match a name at one position at most |
| FileNames.ExtensionStart | src/App.jsx:69 | scanning back to the last `/` or `.` finds the match position exactly: a result means the pattern matches there, and no result means it matches nowhere |
| FileNames.Stem | src/App.jsx:69 | the name cut before the position where the pattern matches, or the whole name when it matches nowhere |
| FileNames.StemOfExtended | src/App.jsx:69 | for any base and any non-empty extension without `/` or `.`, the stem of `base.ext` is `base` |
| FileNames.StemWithoutDot | src/App.jsx:69 | a name without a dot is unchanged |
| FileNames.StemOfTrailingDot | src/App.jsx:69 | a name ending in `.` is unchanged |
| FileNames.StemIsPrefix | src/App.jsx:69 | the stem is a prefix of the name, and strictly shorter exactly when the pattern matches |
| FileNames.StemExamples | src/App.jsx:69 | `song.wav` gives `song`; `a.tar.gz` gives `a.tar` |
| FileNames.DisplayName | src/App.jsx:70 | the display name always ends in `.mp3` |
| FileNames.DisplayNameExtension | src/App.jsx:69-70 | the extension pattern matches the display name exactly at its `.mp3`: removing the extension and appending `.mp3` gives the name back |
| FileNames.DisplayNameIgnoresExtension | src/App.jsx:69-70 | two names that differ only in their extension get the same display name |
| FileNames.DisplayNameBare | src/App.jsx:70 | with no prefix or suffix the display name is the stem plus `.mp3` |
| FileNames.DisplayNameExamples | src/App.jsx:69-70 | `("intro", "v2", "song.wav")` gives `intro_song_v2.mp3`; `track.wav` with no prefix or suffix gives `track.mp3` |
| Submission.ResultRow | src/App.jsx:75-79 | the row has the processor's keys plus `fileName` and `fileBase64`; those two hold the display name and the payload (undefined when absent) and override same-named fields; every other field is kept |
| Submission.ThrownMessage | src/App.jsx:60-64 | a rejection keeps its own message; a non-OK status with a non-empty server message throws `FFmpegエラー: ` + message; without one it throws the generic text |
| Submission.CaughtAlert | src/App.jsx:83-88 | the catch block shows the connectivity alert exactly when the message contains "Failed to fetch", and otherwise `エラーが発生しました: ` + message |
| Submission.Begin | src/App.jsx:38-52 | a request is sent exactly when a file is selected; sending one raises `loading` and carries that file; without a file nothing changes and the missing-file alert is shown |
| Submission.Settle | src/App.jsx:54-92 | `loading` is false after every outcome; a success appends exactly one row after the unchanged earlier rows and shows no alert; a failure leaves the results unchanged and always shows an alert |
| Submission.Submit | src/App.jsx:37-93 | from idle, a submit ends idle with file and configuration untouched; it sends the configured request exactly when a file is selected; the results only grow, by one on success and by nothing otherwise; an alert is shown exactly when the job did not succeed |
| Submission.SubmitWithoutFile | src/App.jsx:39 | with no file the session is unchanged, nothing is sent, and the user is asked to select a file |
| Submission.SubmitSuccess | src/App.jsx:66-80 | a success keeps every earlier row; the new last row holds the display name of the file, prefix and suffix, the payload, and every other field of `info` |
| Submission.SubmitFailure | src/App.jsx:60-92 | a failure leaves the session as it was and shows the alert of the error thrown |
| Submission.FailureAlerts | src/App.jsx:60-88 | a rejection gets the connectivity alert exactly when its message says "Failed to fetch"; a non-OK status with no message gets `エラーが発生しました: ` + the generic text; a server message gets `エラーが発生しました: FFmpegエラー: ` + message, or the connectivity alert when it itself mentions "Failed to fetch" |
| Submission.FfmpegPrefixAddsNoFetchFailure | src/App.jsx:63-84 | wrapping a server message in `FFmpegエラー: ` never makes it mention "Failed to fetch" when it did not already |
| Submission.GenericFailureIsNotConnectivity | src/App.jsx:63-84 | the generic failure text never triggers the connectivity alert |
| Submission.ApplyEdit | src/App.jsx:143-205 | editing a field never changes `loading` or the results; only the file input changes the selected file, and it leaves the configuration alone; every other input sets its own configuration field and leaves the rest unchanged |
| Submission.Step | src/App.jsx:37-93 | one user action from idle ends idle and keeps every existing row |
| Submission.Run | src/App.jsx:21-93 | after any sequence of edits and submissions from idle, the page is idle again; the original results are a prefix of the final ones; at most one row is added per event |
| Submission.RunWellFormed | src/App.jsx:73-80 | along any such sequence, every row has a display name ending in `.mp3` under `fileName` and a string or undefined under `fileBase64` |
| Submission.Label | src/App.jsx:246 | the label of a row (and of the selected file, line 142) is `truncateMiddle(name, 30)` as written; it is at most 30 units long, and a name within its limit is shown whole |
| Submission.LabelIdempotent | src/App.jsx:12-19 | truncating a label again for display changes nothing |
| Download.ToBytes | src/App.jsx:97-102 | the byte array is as long as the decoded string, and byte `i` is code unit `i` modulo 256 |
| Download.SaveArtifact | src/App.jsx:96-111 | the download fails exactly when `atob` rejects the payload; otherwise it offers an `audio/mpeg` file under the given name whose bytes are exactly the decoded units when all of them are below 256 |
| Download.DownloadButton | src/App.jsx:254-255 | `CanDownload` (the button's `disabled` condition): the row a success adds can be downloaded exactly when the response carried a non-empty payload, and while a request is in flight no row can |
| Download.DownloadRow | src/App.jsx:253-256 | an enabled download button saves that row's payload under that row's display name, as `audio/mpeg`, with byte `j` equal to unit `j` of the decoded payload modulo 256; it fails exactly when the payload does not decode |

## Left out

- An absent (`null`/`undefined`) argument to `truncateMiddle` is not modelled. Both call sites pass a string. The empty string is modelled and returns `""`.
- `maxLength` is modelled as an integer. Fractional limits are not modelled.
- JSX rendering, styling, FontAwesome and the React `useState` machinery are presentation only. The state is an explicit `Session` record instead.
- `fetch`, `FormData`, the `URLSearchParams` encoding of the query and `res.json()` parsing are network and library I/O. `Request` records what is sent. `Response` is an input with three cases: a rejected promise with its message, a non-OK status with an optional message, or OK with `info` and `file`.
- Every input stores a string after an edit: the loudness and peak number inputs (`""` once cleared), and the sample-rate, bitrate and channel select boxes (src/App.jsx:163, 174, 185). They are modelled as `real`, the two enumerated subset types and `Channel`, because no arithmetic is done on them and each value reaches the request only as text. A cleared number input is not modelled.
- The contents of the selected file are opaque to this code. Only its name is modelled.
- A non-string `message` in an error body is stringified by the template literal. Only string messages are modelled, and an empty one counts as absent, as JavaScript truthiness says.
- `info` values are modelled as strings, numbers or undefined. Other JSON values never reach any logic here.
- The internals of `atob` (forgiving base64 as in section 4 of RFC 4648) are left out. `atob` is a parameter: a partial decoder.
- `Blob`, `URL.createObjectURL`, the anchor `click()` and the one-second `setTimeout` revoke are browser APIs and timers. `Artifact` records what is offered.
- `alert` and `console.error` are side effects. The alert text is returned instead, and logging is not modelled.
- The async suspension is left out. Each submit is one atomic `Begin` then `Settle`. Edits made while a request is in flight are not modelled. They cannot affect it, because the handler's closure already holds the values from the moment of the press.
- Truncate.TruncateIdempotent: stated only for `maxLength >= 17`. Below that, a non-ASCII name cut to 17 ASCII units is cut again at the smaller ASCII limit.
- Truncate.TruncateMiddle: the shape of a cut result is stated only for effective limits of at least 5. Smaller limits are covered by `TruncateMiddleGrowsAtShortLimits` and the finding below.

## Findings

| source | as written | input that shows it | evidently intended | confidence | as-written member | corrected member |
|---|---|---|---|---|---|---|
| src/App.jsx:17-18 | for limit 3 or 4 the half is 0, and `str.slice(-0)` is the whole string, so the "shortened" result is `...` followed by the entire input; below 3 the half is negative, so `slice(0, half)` drops `-half` units from the end and `slice(-half)` drops `-half` units from the start (limit 0 turns `"abc"` into `"a...c"`) | `truncateMiddle("abcde", 4)` returns `"...abcde"` (8 units for a limit of 4) | clamp the half at 0, giving at most `max(limit, 3)` units | low, not executed; both call sites pass 30, where the two definitions agree (`ClampedAgrees`) | Truncate.TruncateMiddleAbcdeAtFour | Truncate.TruncateMiddleClamped |
