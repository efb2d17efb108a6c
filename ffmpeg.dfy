/**
 * `SubtitleBot.add_subs_to_video`: the escaping of the subtitle path for
 * ffmpeg's filter syntax, the choice between the two commands (with or
 * without the bundled Hebrew font) and the success flag derived from the
 * command's exit status. Running the command is left to a parameter.
 */
module Ffmpeg {

  /** `p.replace('\\', '/')`: every backslash becomes a forward slash. */
  function Slashed(p: string): (r: string)
    ensures |r| == |p|
    ensures forall i :: 0 <= i < |p| ==> r[i] == if p[i] == '\\' then '/' else p[i]
  {
    if p == [] then [] else [if p[0] == '\\' then '/' else p[0]] + Slashed(p[1..])
  }

  /** `s.replace(':', '\\:')`: a backslash is put before every colon. */
  function EscapeColons(s: string): string {
    if s == [] then []
    else (if s[0] == ':' then "\\:" else [s[0]]) + EscapeColons(s[1..])
  }

  /** The two chained replacements applied to the subtitle path. */
  function Escape(p: string): string {
    EscapeColons(Slashed(p))
  }

  function Count(s: string, c: char): nat {
    if s == [] then 0 else (if s[0] == c then 1 else 0) + Count(s[1..], c)
  }

  /** Removes the backslash that precedes each colon. */
  function Unescape(s: string): string {
    if s == [] then []
    else if |s| >= 2 && s[0] == '\\' && s[1] == ':' then ":" + Unescape(s[2..])
    else [s[0]] + Unescape(s[1..])
  }

  predicate NoBackslash(s: string) {
    forall i :: 0 <= i < |s| ==> s[i] != '\\'
  }

  /** One more character per colon, and the colons themselves are kept. */
  lemma {:induction false} EscapeColonsCount(s: string)
    ensures |EscapeColons(s)| == |s| + Count(s, ':')
    ensures Count(EscapeColons(s), ':') == Count(s, ':')
  {
    if s != [] {
      EscapeColonsCount(s[1..]);
      var tail := EscapeColons(s[1..]);
      if s[0] == ':' {
        var r := "\\:" + tail;
        assert r[1..] == [':'] + tail && r[1..][1..] == tail;
      } else {
        assert ([s[0]] + tail)[1..] == tail;
      }
    }
  }

  /** Removing the inserted backslashes undoes the colon escaping. */
  lemma {:induction false} EscapeColonsUnescape(s: string)
    requires NoBackslash(s)
    ensures Unescape(EscapeColons(s)) == s
  {
    if s != [] {
      EscapeColonsUnescape(s[1..]);
      var tail := EscapeColons(s[1..]);
      if s[0] == ':' {
        assert ("\\:" + tail)[2..] == tail;
      } else {
        assert ([s[0]] + tail)[1..] == tail;
      }
    }
  }

  /** In the escaped text backslashes and colons come in pairs `\:`. */
  lemma {:induction false} EscapeColonsPairs(s: string)
    requires NoBackslash(s)
    ensures var r := EscapeColons(s);
      (forall i :: 0 <= i < |r| && r[i] == '\\' ==> i + 1 < |r| && r[i + 1] == ':')
      && (forall i :: 0 <= i < |r| && r[i] == ':' ==> i > 0 && r[i - 1] == '\\')
      && (|r| > 0 ==> r[0] != ':')
  {
    if s != [] {
      EscapeColonsPairs(s[1..]);
      var tail := EscapeColons(s[1..]);
      var head := if s[0] == ':' then "\\:" else [s[0]];
      var r := head + tail;
      forall i | 0 <= i < |r| && r[i] == '\\' ensures i + 1 < |r| && r[i + 1] == ':' {
        if i >= |head| {
          assert r[i] == tail[i - |head|];
          assert r[i + 1] == tail[i + 1 - |head|];
        }
      }
      forall i | 0 <= i < |r| && r[i] == ':' ensures i > 0 && r[i - 1] == '\\' {
        if i >= |head| {
          assert r[i] == tail[i - |head|];
          if i > |head| {
            assert r[i - 1] == tail[i - 1 - |head|];
          }
        }
      }
    }
  }

  /**
   * The escaped path: no backslash is left except right before a colon,
   * every colon has a backslash right before it, the colons are as many as
   * in the input, and removing those backslashes gives the input with its
   * backslashes turned into slashes, every other character unchanged.
   */
  lemma EscapeProperties(p: string)
    ensures forall i :: 0 <= i < |Escape(p)| && Escape(p)[i] == '\\' ==>
      i + 1 < |Escape(p)| && Escape(p)[i + 1] == ':'
    ensures forall i :: 0 <= i < |Escape(p)| && Escape(p)[i] == ':' ==>
      i > 0 && Escape(p)[i - 1] == '\\'
    ensures Count(Escape(p), ':') == Count(p, ':')
    ensures |Escape(p)| == |p| + Count(p, ':')
    ensures Unescape(Escape(p)) == Slashed(p)
  {
    SlashedColons(p);
    EscapeColonsCount(Slashed(p));
    EscapeColonsUnescape(Slashed(p));
    EscapeColonsPairs(Slashed(p));
  }

  /** Turning backslashes into slashes keeps the colons. */
  lemma {:induction false} SlashedColons(p: string)
    ensures Count(Slashed(p), ':') == Count(p, ':')
  {
    if p != [] {
      SlashedColons(p[1..]);
      assert Slashed(p)[1..] == Slashed(p[1..]);
    }
  }

  /** A path without backslashes or colons passes through unchanged. */
  lemma {:induction false} EscapeIdentity(p: string)
    requires forall i :: 0 <= i < |p| ==> p[i] != '\\' && p[i] != ':'
    ensures Escape(p) == p
  {
    if p != [] {
      EscapeIdentity(p[1..]);
      assert Slashed(p) == [p[0]] + Slashed(p[1..]);
    }
  }

  /** The font `add_subs_to_video` looks for; whether it exists is the parameter `fontFound`. */
  const FontPath: string := "גופנים/NotoSansHebrew-VariableFont_wdth,wght.ttf"

  /** The command up to the opening quote of the subtitle path. */
  function Lead(videoPath: string): string {
    "ffmpeg -i '" + videoPath + "' " + "-vf \"subtitles='"
  }

  /** From the closing quote of the subtitle path to the end of the filter, for either branch. */
  function Style(fontFound: bool): string {
    if fontFound then
      "'" + ":fontsdir='גופנים':force_style='"
        + "FontName=Noto Sans Hebrew,"
        + "FontSize=20,"
        + "PrimaryColour=&HFFFFFF&,"
        + "OutlineColour=&H000000&,"
        + "BorderStyle=3,"
        + "Outline=2,"
        + "Shadow=1,"
        + "Bold=1,"
        + "MarginV=30'\" "
    else
      "'" + ":force_style='FontSize=20,PrimaryColour=&HFFFFFF&,Bold=1'\" "
  }

  /** The output options after the filter. */
  function Trail(outputPath: string): string {
    "-c:a copy '" + outputPath + "' -y -loglevel error"
  }

  /** The path as the filter receives it: escaped only in the font branch. */
  function FilterPath(srtPath: string, fontFound: bool): string {
    if fontFound then Escape(srtPath) else srtPath
  }

  /**
   * The command line passed to `os.system`, one literal per branch;
   * `fontFound` is `os.path.exists(FontPath)`.
   */
  function Command(videoPath: string, srtPath: string, outputPath: string, fontFound: bool): string {
    if fontFound then
      var srtEscaped := Escape(srtPath);
      "ffmpeg -i '" + videoPath + "' "
        + "-vf \"subtitles='" + srtEscaped + "'" + ":fontsdir='גופנים':force_style='"
        + "FontName=Noto Sans Hebrew,"
        + "FontSize=20,"
        + "PrimaryColour=&HFFFFFF&,"
        + "OutlineColour=&H000000&,"
        + "BorderStyle=3,"
        + "Outline=2,"
        + "Shadow=1,"
        + "Bold=1,"
        + "MarginV=30'\" "
        + "-c:a copy '" + outputPath + "' -y -loglevel error"
    else
      "ffmpeg -i '" + videoPath + "' "
        + "-vf \"subtitles='" + srtPath + "'" + ":force_style='FontSize=20,PrimaryColour=&HFFFFFF&,Bold=1'\" "
        + "-c:a copy '" + outputPath + "' -y -loglevel error"
  }

  /**
   * Both branches have the same layout: the lead, the path as the filter
   * receives it, the style options from its closing quote on, and the trail.
   */
  lemma CommandPieces(videoPath: string, srtPath: string, outputPath: string, fontFound: bool)
    ensures Command(videoPath, srtPath, outputPath, fontFound)
         == Lead(videoPath) + FilterPath(srtPath, fontFound) + (Style(fontFound) + Trail(outputPath))
  {
    if fontFound {
      RegroupFont("ffmpeg -i '", videoPath, "' ", "-vf \"subtitles='", Escape(srtPath), "'",
                  ":fontsdir='גופנים':force_style='", "FontName=Noto Sans Hebrew,", "FontSize=20,",
                  "PrimaryColour=&HFFFFFF&,", "OutlineColour=&H000000&,", "BorderStyle=3,",
                  "Outline=2,", "Shadow=1,", "Bold=1,", "MarginV=30'\" ",
                  "-c:a copy '", outputPath, "' -y -loglevel error");
    } else {
      RegroupPlain("ffmpeg -i '", videoPath, "' ", "-vf \"subtitles='", srtPath, "'",
                   ":force_style='FontSize=20,PrimaryColour=&HFFFFFF&,Bold=1'\" ",
                   "-c:a copy '", outputPath, "' -y -loglevel error");
    }
  }

  /** The pieces of the command with the font, regrouped as lead, path, style and trail. */
  lemma RegroupFont(a: string, v: string, b: string, c: string, p: string, q: string,
                    s1: string, s2: string, s3: string, s4: string, s5: string,
                    s6: string, s7: string, s8: string, s9: string, s10: string,
                    t1: string, o: string, t2: string)
    ensures a + v + b + c + p + q + s1 + s2 + s3 + s4 + s5 + s6 + s7 + s8 + s9 + s10 + t1 + o + t2
         == (a + v + b + c) + p + ((q + s1 + s2 + s3 + s4 + s5 + s6 + s7 + s8 + s9 + s10) + (t1 + o + t2))
  {
  }

  /** The pieces of the command without the font, regrouped the same way. */
  lemma RegroupPlain(a: string, v: string, b: string, c: string, p: string, q: string,
                     s: string, t1: string, o: string, t2: string)
    ensures a + v + b + c + p + q + s + t1 + o + t2 == (a + v + b + c) + p + ((q + s) + (t1 + o + t2))
  {
  }

  /** Both style options start by closing the quote around the subtitle path. */
  lemma StyleQuote(fontFound: bool)
    ensures Style(fontFound) != [] && Style(fontFound)[0] == '\''
  {
    if fontFound {
      FrontFont("'", ":fontsdir='גופנים':force_style='", "FontName=Noto Sans Hebrew,", "FontSize=20,",
                "PrimaryColour=&HFFFFFF&,", "OutlineColour=&H000000&,", "BorderStyle=3,",
                "Outline=2,", "Shadow=1,", "Bold=1,", "MarginV=30'\" ");
    }
  }

  /** The first character of the font branch's style options is that of its first piece. */
  lemma FrontFont(q: string, s1: string, s2: string, s3: string, s4: string, s5: string,
                  s6: string, s7: string, s8: string, s9: string, s10: string)
    requires q != []
    ensures var s := q + s1 + s2 + s3 + s4 + s5 + s6 + s7 + s8 + s9 + s10;
      s != [] && s[0] == q[0]
  {
    assert q + s1 + s2 + s3 + s4 + s5 + s6 + s7 + s8 + s9 + s10
        == q + (s1 + s2 + s3 + s4 + s5 + s6 + s7 + s8 + s9 + s10);
  }

  /** Where the pieces of a command sit, whatever its style options are. */
  lemma Pieces(lead: string, path: string, style: string, trail: string)
    requires style != [] && style[0] == '\''
    ensures var cmd, quoted := lead + path + (style + trail), lead + path + "'";
      |quoted| <= |cmd| && cmd[..|quoted|] == quoted
      && |trail| <= |cmd| && cmd[|cmd| - |trail|..] == trail
  {
    var cmd, quoted := lead + path + (style + trail), lead + path + "'";
    assert style == "'" + style[1..];
    assert cmd == quoted + (style[1..] + trail);
    assert cmd == (lead + path + style) + trail;
  }

  /**
   * Both commands read the input video, hand the subtitle path to the
   * `subtitles` filter between single quotes (escaped when the bundled font
   * is found, exactly as given when it is not) and end by writing the
   * output video with the audio stream copied.
   */
  lemma CommandShape(videoPath: string, srtPath: string, outputPath: string, fontFound: bool)
    ensures var cmd := Command(videoPath, srtPath, outputPath, fontFound);
      var quoted := Lead(videoPath) + (if fontFound then Escape(srtPath) else srtPath) + "'";
      |quoted| <= |cmd| && cmd[..|quoted|] == quoted
      && |Trail(outputPath)| <= |cmd| && cmd[|cmd| - |Trail(outputPath)|..] == Trail(outputPath)
  {
    CommandPieces(videoPath, srtPath, outputPath, fontFound);
    StyleQuote(fontFound);
    Pieces(Lead(videoPath), FilterPath(srtPath, fontFound), Style(fontFound), Trail(outputPath));
  }

  /**
   * `os.system(cmd)`, whose exit status is the parameter `run`: success
   * exactly when ffmpeg exits with 0 on the command made of the lead, the
   * subtitle path (escaped exactly when the font is found), that branch's
   * style options and the trail.
   */
  function AddSubsToVideo(videoPath: string, srtPath: string, outputPath: string,
                          fontFound: bool, run: string -> int): (ok: bool)
    ensures ok <==> run(Lead(videoPath) + FilterPath(srtPath, fontFound)
                        + (Style(fontFound) + Trail(outputPath))) == 0
  {
    var cmd := Command(videoPath, srtPath, outputPath, fontFound);
    CommandPieces(videoPath, srtPath, outputPath, fontFound);
    run(cmd) == 0
  }
}
