/**
 * `handle_video`: the size check made before anything is downloaded, and
 * the order of the pipeline that follows it (transcription, the SubRip
 * file, the ffmpeg command) with the file names derived from the
 * Telegram file id. Downloading, transcribing and running ffmpeg are
 * parameters; sending the results and the status messages are left out.
 */
module Bot {
  import opened Wrappers
  import opened Srt
  import Ffmpeg

  /** The largest video accepted: 50 MiB. */
  const MaxVideoBytes: int := 50 * 1024 * 1024

  /** `video.file_size > 50 * 1024 * 1024` rejects; anything else goes on. */
  predicate Admitted(fileSize: int) {
    !(fileSize > MaxVideoBytes)
  }

  /** The limit is 52428800 bytes, inclusive: one byte more is refused. */
  lemma AdmissionBoundary(fileSize: int)
    ensures Admitted(fileSize) <==> fileSize <= 52428800
    ensures Admitted(52428800) && !Admitted(52428801)
  {
  }

  /** How a request ends. */
  datatype Outcome =
    | TooLarge
    | Failed
    | Delivered(videoPath: string, srtPath: string, srtContent: string)

  function DownloadPath(fileId: string): string { "downloads/" + fileId + ".mp4" }
  function SrtPath(fileId: string): string { "output/" + fileId + ".srt" }
  function OutputPath(fileId: string): string { "output/" + fileId + "_hebrew.mp4" }

  /**
   * `handle_video` for a video of `fileSize` bytes. `transcript` is what
   * the download and the speech recogniser produced (`None` when either
   * raised), `replies` the translation service's behaviour, `fontFound`
   * whether the bundled font exists and `run` the exit status ffmpeg
   * returns for a command line.
   */
  function HandleVideo(fileSize: int, fileId: string, transcript: Option<seq<Segment>>,
                       replies: nat -> nat -> Option<string>, fontFound: bool,
                       run: string -> int): Outcome
  {
    if !Admitted(fileSize) then TooLarge
    else match transcript
      case None => Failed
      case Some(segments) =>
        var content := SrtFile(segments, replies);
        if Ffmpeg.AddSubsToVideo(DownloadPath(fileId), SrtPath(fileId), OutputPath(fileId), fontFound, run)
        then Delivered(OutputPath(fileId), SrtPath(fileId), content)
        else Failed
  }

  /**
   * Every outcome in terms of the inputs: a video over 50 MiB is refused
   * before anything else happens; an admitted one is delivered exactly
   * when transcription succeeded and ffmpeg exited with status 0, and
   * then with the SubRip file built from the transcript.
   */
  lemma HandleVideoOutcome(fileSize: int, fileId: string, transcript: Option<seq<Segment>>,
                           replies: nat -> nat -> Option<string>, fontFound: bool,
                           run: string -> int)
    ensures var out := HandleVideo(fileSize, fileId, transcript, replies, fontFound, run);
      var cmd := Ffmpeg.Command(DownloadPath(fileId), SrtPath(fileId), OutputPath(fileId), fontFound);
      (out == TooLarge <==> fileSize > MaxVideoBytes)
      && (out.Delivered? <==> Admitted(fileSize) && transcript.Some? && run(cmd) == 0)
      && (out.Delivered? ==> out.srtContent == SrtFile(transcript.value, replies)
                             && out.videoPath == OutputPath(fileId)
                             && out.srtPath == SrtPath(fileId))
  {
  }
}
