/**
 * `SubtitleBot.create_srt`: the SubRip file written for a transcript. Each
 * segment becomes one block: its 1-based number, a line `start --> end`,
 * the translation of its stripped text and a blank line. The file is
 * modelled by its content; `replies(i)` is the translation service's
 * behaviour while block `i` is translated.
 */
module Srt {
  import opened Wrappers
  import opened Decimal
  import opened SrtTime
  import opened Translate

  /** One transcript segment: offsets in seconds and the recognised text. */
  datatype Segment = Segment(start: real, end: real, text: string)

  /** Python's `str.isspace` for a single character. */
  predicate IsSpace(c: char) {
    c == ' ' || ('\t' <= c <= '\r') || ('\U{1C}' <= c <= '\U{1F}')
    || c == '\U{85}' || c == '\U{A0}' || c == '\U{1680}'
    || ('\U{2000}' <= c <= '\U{200A}') || c == '\U{2028}' || c == '\U{2029}'
    || c == '\U{202F}' || c == '\U{205F}' || c == '\U{3000}'
  }

  /** The number of whitespace characters `s` starts with. */
  function LeadingSpace(s: string): (i: nat)
    ensures i <= |s|
    ensures forall k :: 0 <= k < i ==> IsSpace(s[k])
    ensures i < |s| ==> !IsSpace(s[i])
  {
    if s != [] && IsSpace(s[0]) then 1 + LeadingSpace(s[1..]) else 0
  }

  /** Where the whitespace that `s` ends with begins. */
  function TrailingSpace(s: string): (j: nat)
    ensures j <= |s|
    ensures forall k :: j <= k < |s| ==> IsSpace(s[k])
    ensures j > 0 ==> !IsSpace(s[j - 1])
  {
    if s != [] && IsSpace(s[|s| - 1]) then TrailingSpace(s[..|s| - 1]) else |s|
  }

  /**
   * Python's `str.strip()`: the part of `s` that is left once leading and
   * trailing whitespace is removed. Only whitespace is removed, and the
   * result neither starts nor ends with whitespace.
   */
  function Strip(s: string): (r: string)
    ensures LeadingSpace(s) + |r| <= |s|
    ensures r == s[LeadingSpace(s)..LeadingSpace(s) + |r|]
    ensures forall k :: 0 <= k < LeadingSpace(s) ==> IsSpace(s[k])
    ensures forall k :: LeadingSpace(s) + |r| <= k < |s| ==> IsSpace(s[k])
    ensures r != [] ==> !IsSpace(r[0]) && !IsSpace(r[|r| - 1])
  {
    var i := LeadingSpace(s);
    var t := s[i..];
    t[..TrailingSpace(t)]
  }

  /** Stripping twice is stripping once. */
  lemma StripIdempotent(s: string)
    ensures Strip(Strip(s)) == Strip(s)
  {
    var r := Strip(s);
    if r != [] {
      assert LeadingSpace(r) == 0;
      assert TrailingSpace(r) == |r|;
    }
  }

  /** One SubRip block: `f"{i}\n{start} --> {end}\n{text}\n\n"`. */
  function Block(index: nat, seg: Segment, translated: string): string {
    Digits(index) + "\n" + Timing(seg) + "\n" + translated + "\n\n"
  }

  /** The timing line `f"{start} --> {end}"`. */
  function Timing(seg: Segment): string {
    FormatTime(seg.start) + " --> " + FormatTime(seg.end)
  }

  /** The first position of `c` in `s`, or `|s|` when `c` does not occur. */
  function IndexOf(s: string, c: char): (i: nat)
    ensures i <= |s|
    ensures i < |s| ==> s[i] == c
    ensures forall k :: 0 <= k < i ==> s[k] != c
  {
    if s == [] then 0 else if s[0] == c then 0 else 1 + IndexOf(s[1..], c)
  }

  /** The first two lines of a block: its number and the fields of its two timestamps. */
  datatype Header = Header(index: nat, start: Clock, end: Clock)

  /** Reads the number line and the timing line of a block back. */
  function ParseHeader(b: string): Option<Header> {
    var p := IndexOf(b, '\n');
    if p == |b| || p == 0 || !AllDigits(b[..p]) then None
    else
      var rest := b[p + 1..];
      var q := IndexOf(rest, '\n');
      if q == |rest| then None
      else
        match ParseTiming(rest[..q])
        case Some((startTime, endTime)) => Some(Header(DigitsValue(b[..p]), startTime, endTime))
        case None => None
  }

  /** Reads a timing line `start --> end` back into the fields of both timestamps. */
  function ParseTiming(line: string): Option<(Clock, Clock)> {
    var a := IndexOf(line, ' ');
    if a + 5 > |line| || line[a..a + 5] != " --> " then None
    else
      match (ParseTime(line[..a]), ParseTime(line[a + 5..]))
      case (Some(startTime), Some(endTime)) => Some((startTime, endTime))
      case _ => None
  }

  /** Splitting `a + [c] + tail` at the first `c`, when `a` has none. */
  lemma SplitAt(a: string, c: char, tail: string)
    requires forall k :: 0 <= k < |a| ==> a[k] != c
    ensures IndexOf(a + [c] + tail, c) == |a|
    ensures (a + [c] + tail)[..|a|] == a && (a + [c] + tail)[|a| + 1..] == tail
  {
    var s := a + [c] + tail;
    assert s[|a|] == c;
    assert forall k :: 0 <= k < |a| ==> s[k] == a[k];
  }

  /** A header whose number line and timing line hold no line break splits as written. */
  lemma HeaderSplit(d: string, line: string, text: string)
    requires d != [] && AllDigits(d)
    requires forall k :: 0 <= k < |line| ==> line[k] != '\n'
    ensures ParseHeader(d + "\n" + line + "\n" + text + "\n\n") ==
      match ParseTiming(line)
      case Some((startTime, endTime)) => Some(Header(DigitsValue(d), startTime, endTime))
      case None => None
  {
    var tail := text + "\n\n";
    var rest := line + "\n" + tail;
    assert d + "\n" + line + "\n" + text + "\n\n" == d + ['\n'] + rest;
    assert forall k :: 0 <= k < |d| ==> d[k] != '\n' by {
      assert forall k :: 0 <= k < |d| ==> IsDigit(d[k]);
    }
    SplitAt(d, '\n', rest);
    assert rest == line + ['\n'] + tail;
    SplitAt(line, '\n', tail);
  }

  /** A timing line whose start has no space splits at the arrow. */
  lemma TimingSplit(t1: string, t2: string)
    requires forall k :: 0 <= k < |t1| ==> t1[k] != ' '
    ensures ParseTiming(t1 + " --> " + t2) ==
      match (ParseTime(t1), ParseTime(t2))
      case (Some(startTime), Some(endTime)) => Some((startTime, endTime))
      case _ => None
  {
    var line := t1 + " --> " + t2;
    var after := "-->" + " " + t2;
    assert line == t1 + [' '] + after;
    SplitAt(t1, ' ', after);
    assert line[|t1|..|t1| + 5] == " --> ";
    assert line[|t1| + 5..] == t2;
  }

  /** No line break and no space in a timestamp. */
  lemma TimeHasNoBreak(seconds: real)
    ensures forall k :: 0 <= k < |FormatTime(seconds)| ==>
      FormatTime(seconds)[k] != ' ' && FormatTime(seconds)[k] != '\n'
  {
    var t := FormatTime(seconds);
    assert forall k :: 0 <= k < |t| ==> IsTimeChar(t[k]);
  }

  /** A timing line holds no line break when its two timestamps hold none. */
  lemma LineHasNoBreak(t1: string, t2: string)
    requires forall k :: 0 <= k < |t1| ==> t1[k] != '\n'
    requires forall k :: 0 <= k < |t2| ==> t2[k] != '\n'
    ensures forall k :: 0 <= k < |t1 + " --> " + t2| ==> (t1 + " --> " + t2)[k] != '\n'
  {
    var line := t1 + " --> " + t2;
    forall k | 0 <= k < |line| ensures line[k] != '\n' {
      if k < |t1| {
        assert line[k] == t1[k];
      } else if k >= |t1| + 5 {
        assert line[k] == t2[k - |t1| - 5];
      }
    }
  }

  /**
   * Round trip of a block's header: its first line gives back its number and
   * its second line the hours, minutes, seconds and milliseconds `format_time`
   * computed for the start and the end of its segment, whatever the
   * translated text is.
   */
  lemma BlockHeader(index: nat, seg: Segment, translated: string)
    ensures ParseHeader(Block(index, seg, translated))
         == Some(Header(index, Fields(seg.start), Fields(seg.end)))
  {
    var d, t1, t2 := Digits(index), FormatTime(seg.start), FormatTime(seg.end);
    RenderedHeader(index, seg.start, seg.end, translated);
    assert Block(index, seg, translated) == d + "\n" + (t1 + " --> " + t2) + "\n" + translated + "\n\n";
  }

  lemma RenderedHeader(index: nat, start: real, end: real, translated: string)
    ensures ParseHeader(Digits(index) + "\n" + (FormatTime(start) + " --> " + FormatTime(end))
                        + "\n" + translated + "\n\n")
         == Some(Header(index, Fields(start), Fields(end)))
  {
    TimeHasNoBreak(start);
    TimeHasNoBreak(end);
    TimeRoundTrip(start);
    TimeRoundTrip(end);
    DigitsRoundTrip(index);
    HeaderOf(Digits(index), FormatTime(start), FormatTime(end), translated,
             Fields(start), Fields(end));
  }

  /** The header of any block whose pieces have the shape of rendered ones. */
  lemma HeaderOf(d: string, t1: string, t2: string, text: string, startTime: Clock, endTime: Clock)
    requires d != [] && AllDigits(d)
    requires forall k :: 0 <= k < |t1| ==> t1[k] != ' ' && t1[k] != '\n'
    requires forall k :: 0 <= k < |t2| ==> t2[k] != '\n'
    requires ParseTime(t1) == Some(startTime) && ParseTime(t2) == Some(endTime)
    ensures ParseHeader(d + "\n" + (t1 + " --> " + t2) + "\n" + text + "\n\n")
         == Some(Header(DigitsValue(d), startTime, endTime))
  {
    LineHasNoBreak(t1, t2);
    HeaderSplit(d, t1 + " --> " + t2, text);
    TimingSplit(t1, t2);
  }

  /** The text of segment `seg` as the block numbered `index` shows it. */
  function Shown(index: nat, seg: Segment, replies: nat -> nat -> Option<string>): string {
    Translation(Strip(seg.text), replies(index))
  }

  /** The blocks for `segs`, numbered from `first` on, one per segment. */
  function BlocksFrom(segs: seq<Segment>, replies: nat -> nat -> Option<string>, first: nat): (bs: seq<string>)
    ensures |bs| == |segs|
    decreases |segs|
  {
    if segs == [] then []
    else [Block(first, segs[0], Shown(first, segs[0], replies))] + BlocksFrom(segs[1..], replies, first + 1)
  }

  /**
   * Block `k` of the list is the block of segment `k`, numbered `first + k`:
   * the blocks follow the segments in order with consecutive numbers.
   */
  lemma {:induction false} BlockAt(segs: seq<Segment>, replies: nat -> nat -> Option<string>, first: nat, k: nat)
    requires k < |segs|
    ensures BlocksFrom(segs, replies, first)[k] == Block(first + k, segs[k], Shown(first + k, segs[k], replies))
    decreases k
  {
    if k > 0 {
      BlockAt(segs[1..], replies, first + 1, k - 1);
      assert segs[1..][k - 1] == segs[k];
    }
  }

  /** The blocks of a whole file, numbered from 1 (`enumerate(segments, 1)`). */
  function Blocks(segs: seq<Segment>, replies: nat -> nat -> Option<string>): seq<string> {
    BlocksFrom(segs, replies, 1)
  }

  function Concat(parts: seq<string>): string {
    if parts == [] then "" else Concat(parts[..|parts| - 1]) + parts[|parts| - 1]
  }

  lemma ConcatSnoc(parts: seq<string>, i: nat)
    requires i < |parts|
    ensures Concat(parts[..i + 1]) == Concat(parts[..i]) + parts[i]
  {
    assert parts[..i + 1][..i] == parts[..i];
  }

  /** What `create_srt` writes: its blocks one after the other. */
  function SrtFile(segs: seq<Segment>, replies: nat -> nat -> Option<string>): string {
    Concat(Blocks(segs, replies))
  }

  /**
   * The translation calls made for the first `n` blocks: block `k` makes
   * `CallCount(replies(k))` of them, between one and three.
   */
  function TotalCalls(n: nat, replies: nat -> nat -> Option<string>): (r: nat)
    ensures n <= r <= MaxAttempts * n
  {
    if n == 0 then 0 else TotalCalls(n - 1, replies) + CallCount(replies(n))
  }

  /**
   * The loop of `create_srt`: for every segment, translate its stripped text
   * and append its block to the file. `calls` counts the translation calls.
   */
  method CreateSrt(segments: seq<Segment>, replies: nat -> nat -> Option<string>)
    returns (content: string, calls: nat)
    ensures content == SrtFile(segments, replies)
    ensures calls == TotalCalls(|segments|, replies)
    ensures |segments| <= calls <= MaxAttempts * |segments|
  {
    content, calls := "", 0;
    ghost var blocks := Blocks(segments, replies);
    for i := 0 to |segments|
      invariant content == Concat(blocks[..i])
      invariant calls == TotalCalls(i, replies)
    {
      var seg := segments[i];
      var translated, used, _ := TranslateText(Strip(seg.text), replies(i + 1));
      var block := Block(i + 1, seg, translated);
      assert block == blocks[i] by {
        BlockAt(segments, replies, 1, i);
      }
      ConcatSnoc(blocks, i);
      content := content + block;
      calls := calls + used;
    }
    assert blocks[..|segments|] == blocks;
  }
}
