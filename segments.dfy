/** The segment handling of genSrt.py: `result2subs` turns transcribed
    segments into numbered subtitle records, and `translate_segments`
    replaces the text of every segment by its translation.

    Times are whole milliseconds; the conversion of the segments' float
    seconds into the records' timedelta values is the identity here. */
module Segments {
  import opened Translate

  type Millis = int

  /** A transcribed segment. `id`, `seek` and `tokens` stand for the fields
      other than the times and the text, which translation must keep. */
  datatype Segment = Segment(id: int, seek: int, start: Millis, end: Millis, text: string, tokens: seq<int>)

  /** A subtitle record; `proprietary` keeps the library's default "". */
  datatype Subtitle = Subtitle(index: int, start: Millis, end: Millis, content: string, proprietary: string)

  /** The records result2subs builds, one appended per segment. */
  function Subtitles(segments: seq<Segment>): (subs: seq<Subtitle>)
    ensures |subs| == |segments|
  {
    if segments == [] then []
    else
      var last := segments[|segments| - 1];
      Subtitles(segments[..|segments| - 1]) + [Subtitle(|segments|, last.start, last.end, last.text, "")]
  }

  /** The i-th record is numbered i + 1 and carries the i-th segment's
      times and text. */
  lemma {:induction false} SubtitlesAt(segments: seq<Segment>, i: int)
    requires 0 <= i < |segments|
    ensures Subtitles(segments)[i].index == i + 1
    ensures Subtitles(segments)[i].start == segments[i].start
    ensures Subtitles(segments)[i].end == segments[i].end
    ensures Subtitles(segments)[i].content == segments[i].text
    ensures Subtitles(segments)[i].proprietary == ""
  {
    if i < |segments| - 1 {
      SubtitlesAt(segments[..|segments| - 1], i);
    }
  }

  /** result2subs. */
  method ResultToSubs(segments: seq<Segment>) returns (subs: seq<Subtitle>)
    ensures subs == Subtitles(segments)
    ensures |subs| == |segments|
    ensures forall i :: 0 <= i < |segments| ==>
              subs[i].index == i + 1 && subs[i].start == segments[i].start &&
              subs[i].end == segments[i].end && subs[i].content == segments[i].text
  {
    subs := [];
    for index := 0 to |segments|
      invariant subs == Subtitles(segments[..index])
    {
      var segment := segments[index];
      var sub := Subtitle(index + 1, segment.start, segment.end, segment.text, "");
      assert segments[..index + 1][..index] == segments[..index];
      subs := subs + [sub];
    }
    assert segments[..|segments|] == segments;
    forall i | 0 <= i < |segments|
      ensures subs[i].index == i + 1 && subs[i].start == segments[i].start
      ensures subs[i].end == segments[i].end && subs[i].content == segments[i].text
    {
      SubtitlesAt(segments, i);
    }
  }

  /** Numbering depends on positions only: two inputs of the same length get
      the same indices, whatever their segments hold. */
  lemma IndicesArePositions(a: seq<Segment>, b: seq<Segment>)
    requires |a| == |b|
    ensures forall i :: 0 <= i < |a| ==> Subtitles(a)[i].index == Subtitles(b)[i].index == i + 1
  {
    forall i | 0 <= i < |a|
      ensures Subtitles(a)[i].index == Subtitles(b)[i].index == i + 1
    {
      SubtitlesAt(a, i);
      SubtitlesAt(b, i);
    }
  }

  ghost predicate SegmentsInOrder(segments: seq<Segment>)
  {
    forall i, j :: 0 <= i < j < |segments| ==> segments[i].start <= segments[j].start
  }

  ghost predicate SubtitlesInOrder(subs: seq<Subtitle>)
  {
    forall i, j :: 0 <= i < j < |subs| ==> subs[i].start <= subs[j].start
  }

  /** Nothing is sorted or checked: the records are in start order exactly
      when the segments are, so segments out of order give records out of
      order. */
  lemma OrderIsPassedThrough(segments: seq<Segment>)
    ensures SubtitlesInOrder(Subtitles(segments)) <==> SegmentsInOrder(segments)
  {
    forall i | 0 <= i < |segments|
      ensures Subtitles(segments)[i].start == segments[i].start
    {
      SubtitlesAt(segments, i);
    }
  }

  /** The segment that translate_segments produces from `segment`:
      segment._replace(text=translator.translation(segment.text)). */
  function Translated(segment: Segment, translator: Translator): (t: Segment)
    ensures t.text == translator.Translation(segment.text)
    ensures t.(text := segment.text) == segment
  {
    segment.(text := translator.Translation(segment.text))
  }

  /** translate_segments. */
  method TranslateSegments(segments: seq<Segment>, translator: Translator) returns (translated: seq<Segment>)
    ensures |translated| == |segments|
    ensures forall i :: 0 <= i < |segments| ==> translated[i] == Translated(segments[i], translator)
  {
    translated := [];
    for i := 0 to |segments|
      invariant |translated| == i
      invariant forall j :: 0 <= j < i ==> translated[j] == Translated(segments[j], translator)
    {
      var segment := segments[i];
      var translatedText := translator.Translation(segment.text);
      var translatedSegment := segment.(text := translatedText);
      translated := translated + [translatedSegment];
    }
  }

  /** The translated subtitle file of transcribe_video: its records have the
      numbering and the times of the original ones, and each content is the
      translation of the original content; with an unsupported target
      language every content is empty. */
  lemma TranslatedSubtitlesKeepTiming(segments: seq<Segment>, translated: seq<Segment>, translator: Translator)
    requires |translated| == |segments|
    requires forall i :: 0 <= i < |segments| ==> translated[i] == Translated(segments[i], translator)
    ensures forall i :: 0 <= i < |segments| ==>
              Subtitles(translated)[i].index == Subtitles(segments)[i].index &&
              Subtitles(translated)[i].start == Subtitles(segments)[i].start &&
              Subtitles(translated)[i].end == Subtitles(segments)[i].end &&
              Subtitles(translated)[i].content == translator.Translation(Subtitles(segments)[i].content)
    ensures !translator.Supported() ==> forall i :: 0 <= i < |segments| ==> Subtitles(translated)[i].content == ""
  {
    forall i | 0 <= i < |segments|
      ensures Subtitles(translated)[i].index == Subtitles(segments)[i].index &&
              Subtitles(translated)[i].start == Subtitles(segments)[i].start &&
              Subtitles(translated)[i].end == Subtitles(segments)[i].end &&
              Subtitles(translated)[i].content == translator.Translation(Subtitles(segments)[i].content)
    {
      SubtitlesAt(segments, i);
      SubtitlesAt(translated, i);
    }
  }

  /** The prompts translate_segments sends to the chat model, in order: one
      per segment whose text is not empty, none when the target language is
      unsupported. */
  function LlmRequests(segments: seq<Segment>, translator: Translator): (prompts: seq<string>)
    ensures |prompts| <= |segments|
    ensures !translator.Supported() ==> prompts == []
  {
    if segments == [] then []
    else
      var first := match translator.Request(segments[0].text)
        case Some(prompt) => [prompt]
        case None => [];
      first + LlmRequests(segments[1..], translator)
  }

  function NonEmptyTexts(segments: seq<Segment>): nat
  {
    if segments == [] then 0
    else (if segments[0].text == "" then 0 else 1) + NonEmptyTexts(segments[1..])
  }

  /** The chat model is called once per non-empty segment and never for an
      empty one; it is not called at all for an unsupported language. */
  lemma {:induction false} LlmRequestCount(segments: seq<Segment>, translator: Translator)
    ensures |LlmRequests(segments, translator)| == if translator.Supported() then NonEmptyTexts(segments) else 0
  {
    if segments != [] {
      LlmRequestCount(segments[1..], translator);
    }
  }
}
