# SubRip subtitle serialiser of the Telegram subtitle bot, in Dafny

This project models the part of the Telegram "translated subtitles" bot
(`bot.py`, class `SubtitleBot` and the handler `handle_video`) that has
logic of its own: turning a transcript into a SubRip (`.srt`) file, the
retry policy around the translation service, the ffmpeg command line that
burns the subtitles into the video, and the 50 MiB admission check.

- `wrappers.dfy` — `Option`.
- `decimal.dfy` — Python's `format(n, '0Nd')` and the parse that reads it back.
- `srt_time.dfy` — `format_time`. The offset is an exact `real`. Python's
  `//`, `%` (floored) and `int()` (truncating) are written out. The model
  covers negative offsets too.
- `translate.dfy` — `translate_text`: at most three calls, a sleep after each
  failed call except the last, and a fallback to the input.
- `srt.dfy` — `create_srt`: `str.strip`, one block per segment, and the file
  content built by the same loop the source runs.
- `ffmpeg.dfy` — `add_subs_to_video`: escaping the subtitle path, choosing
  between the command with the bundled font and the one without it, and
  turning the exit status into a success flag.
- `bot.dfy` — `handle_video`: the size limit and the order of the steps.

Outside inputs are parameters:
- The translation service is `reply: nat -> Option<string>`: the outcome of
  attempt `k`, where `None` means the call raised. For a whole file it is
  `replies: nat -> nat -> Option<string>`, indexed by block number.
- `os.path.exists(font_path)` is `fontFound`.
- `os.system` is `run: string -> int`, the exit status for a command line.
- Downloading and Whisper together give `transcript: Option<seq<Segment>>`,
  where `None` means one of them raised.

The sleeps are counted, not timed. The file is modelled by its content. A
file write is an append to that content.

Some facts about `bot.py` that the model keeps:

- It hands an SRT file to ffmpeg's `subtitles` filter, with no display offset.
- It derives every per-request file name from the Telegram file id: the download, the SRT and the output video.

## Model

The defining functions (`Decimal.FormatInt`, `Translate.Translation`, `Srt.Block`, `Ffmpeg.Escape`, `Ffmpeg.Command`, `Bot.HandleVideo`) have no row of their own. The row of the lemma or method about each one stands for it.

| member | source | states |
|---|---|---|
| `Decimal.FormatIntRoundTrip` | bot.py:58 | Reading back an integer rendered with `0Nd` gives the integer again, for every integer (negative ones too) and every width |
| `Decimal.FormatIntWidth` | bot.py:58 | A minute or second value below 100, rendered with `02d`, is exactly 2 digits. A millisecond value below 1000, rendered with `03d`, is exactly 3 digits |
| `SrtTime.FloorDiv` | bot.py:54-55 | Python's `x // d`: the quotient `q` satisfies `q*d <= x < (q+1)*d` |
| `SrtTime.PyMod` | bot.py:55-57 | Python's `x % d`: the remainder is in `[0, d)` and `x == (x // d)*d + remainder` |
| `SrtTime.Trunc` | bot.py:54-57 | Python's `int()`: truncates toward zero, for positive and negative arguments |
| `SrtTime.Fields` | bot.py:54-57 | Minutes and seconds are in 0..59 and milliseconds in 0..999. Hours are `floor(seconds/3600)`, not negative for a non-negative offset, and have no upper bound. `h*3600000 + m*60000 + s*1000 + ms == floor(seconds*1000)`, so the time is truncated, never rounded up |
| `SrtTime.FormatTime` | bot.py:52-58 | Every timestamp ends in `:MM:SS,mmm` with digit fields, whatever the number of hour digits. It uses only digits, `:`, `,` and `-`, so it holds no space and no line break |
| `SrtTime.TimeRoundTrip` | bot.py:54-58 | For every real offset, reading the timestamp back gives exactly the four fields `format_time` computed. Hours are read as a signed integer, and minutes, seconds and milliseconds as digit strings. The total is therefore exactly `floor(seconds*1000)` milliseconds |
| `SrtTime.FixedShape` | bot.py:58 | For `0 <= seconds < 360000` (hours below 100), the timestamp is exactly `DD:DD:DD,DDD`: 12 characters, with separators at positions 2, 5 and 8 and digits everywhere else |
| `Translate.FirstSuccess` | bot.py:41-44 | The attempt it returns is the first one below the bound whose call succeeded. When it returns none, every attempt below the bound failed |
| `Translate.CallCount` | bot.py:41-50 | `translate_text` calls the service at least once and at most three times |
| `Translate.TranslateText` | bot.py:39-50 | One to three calls. Every call before the last one failed. If the last call succeeded, its answer is the result. If it failed, it was the third call and the input text comes back unchanged. Sleeps = calls - 1, so at most 2. Result and call count agree with `Translation` and `CallCount` |
| `Translate.TranslationCases` | bot.py:41-50 | For every service behaviour: if attempt k < 3 is the first success, the result is its answer after k+1 calls. If all three attempts fail, the result is the input after 3 calls |
| `Translate.UnusedRepliesIrrelevant` | bot.py:41-44 | Two service behaviours that agree on the calls actually made give the same result and the same call count. Calls after the first success are never made |
| `Srt.Strip` | bot.py:66 | Python's `str.strip()`. The result is a contiguous slice of the input. Only whitespace (`str.isspace`) is removed before and after it. The result does not start or end with whitespace |
| `Srt.StripIdempotent` | bot.py:66 | Stripping twice gives the same text as stripping once |
| `Srt.BlocksFrom` | bot.py:65 | Exactly one block per segment |
| `Srt.BlockAt` | bot.py:65-70 | Block k is the block of segment k, numbered `first + k`. So the blocks follow the segments in order, numbered 1 to the number of segments in the file. Each block shows the translation of the segment's stripped text |
| `Srt.BlockHeader` | bot.py:67-70 | Parsing a block's first two lines gives back its number and the hours, minutes, seconds and milliseconds of its own segment's start and end, whatever the translated text is |
| `Srt.CreateSrt` | bot.py:60-72 | The loop writes exactly the 1-based blocks of the segments, one after the other, in order. Its call count is exactly `TotalCalls`: the translation calls of each block added up |
| `Srt.TotalCalls` | bot.py:65-66 | Each block makes between one and three translation calls, so n blocks make between n and 3n |
| `Ffmpeg.Slashed` | bot.py:89 | `replace('\\', '/')`: same length. Every backslash becomes `/` and every other character is unchanged |
| `Ffmpeg.EscapeProperties` | bot.py:89 | In the escaped path, every `\` is immediately followed by `:` and every `:` immediately follows a `\`. The number of `:` is preserved. The length grows by one per colon. Removing those backslashes gives the input with `\` turned into `/` |
| `Ffmpeg.EscapeIdentity` | bot.py:89 | A path with no backslash and no colon is unchanged by escaping |
| `Ffmpeg.CommandShape` | bot.py:86-112 | Both commands start with `ffmpeg -i '<video>' -vf "subtitles='`. Next comes the subtitle path and a closing quote. The path is escaped when the font is found and embedded as given when it is not. Both commands end with `-c:a copy '<output>' -y -loglevel error` |
| `Ffmpeg.CommandPieces` | bot.py:87-112 | Each branch's own command literal (bot.py:92-105 and 108-112) equals the lead, then the path as the filter receives it, then the style options, then the trail |
| `Ffmpeg.AddSubsToVideo` | bot.py:82-121 | The result is true exactly when ffmpeg exits with 0 on a command laid out in four parts: the lead, the subtitle path (escaped exactly when the font is found), that branch's style options and the trail |
| `Bot.AdmissionBoundary` | bot.py:183-188 | A video is admitted exactly when it is at most 52428800 bytes (50 MiB). 52428800 is admitted; 52428801 is refused |
| `Bot.HandleVideoOutcome` | bot.py:178-223 | A video over 50 MiB is refused before any other step. An admitted video reaches the sending step exactly when download and transcription returned a transcript (possibly empty) and ffmpeg exited with 0. The SRT delivered is the file built from those segments, stored under `output/<file_id>.srt`, with the video under `output/<file_id>_hebrew.mp4` |

## Left out

- Telegram handling is transport and user-interface code, and is left out:
  - `start`, `help_command`, `handle_document` and `main` (bot.py:127-176, 264-292);
  - the status-message edits (bot.py:190-194, 206, 210-213, 218, 226);
  - sending the video and the SRT back (bot.py:228-245).
- The Whisper model and the googletrans client are foreign calls (bot.py:25-37, 43). They appear only as inputs: a transcript option and the per-attempt outcomes.
- File I/O and processes are left out: downloading, `open`/`write`, `os.makedirs`, `os.remove` and actually running ffmpeg (bot.py:64, 114, 198-203, 248-250). Only the strings produced and the boolean derived from the exit status are modelled. The model therefore does not capture that the files are removed only on success and stay behind when any step raises.
- `time.sleep(1)` is counted, not timed (bot.py:47). Logging is left out.
- `SrtTime.FormatTime` uses exact real arithmetic, not IEEE doubles. With doubles, `(seconds % 1) * 1000` can land just below a whole number and print one millisecond less than the exact value.
- `Ffmpeg.CommandShape` does not state the literal `force_style` options. `Ffmpeg.CommandPieces` ties each command to `Ffmpeg.Style`, which spells them out verbatim.
- `font_escaped` (bot.py:90) is computed by the source but used nowhere in the command (the filter names the font directory literally). The model therefore leaves it out.
- `Bot.HandleVideoOutcome`: sending is not modelled. In the source, a `reply_video` or `reply_document` that raises (bot.py:229-243) turns what the model calls `Delivered` into a failure (bot.py:252-262).
- `Bot.HandleVideoOutcome` does not model the error text shown to the user, `str(e)[:100]` (bot.py:252-262). A failure is only `Failed`.
- `app.py` is not part of this model. It is a second entry point: a Flask webhook that reshapes RTL text and draws it with PIL and moviepy.
