/** Speaker-attributed transcripts (`transcribe_and_diarize`, identical in
    feature1_transcription/app.py and feature1_transcription/audio_pipeline.py):
    the speech-to-text model's time-stamped segments are merged into the
    diarization model's speaker tracks. Both models are outside the model;
    their outputs are the inputs here. */
module Transcription {
  import opened Wrappers
  import opened Text
  import opened Seqs

  /** One entry of the transcription's `"segments"` list. */
  datatype Segment = Segment(start: real, end: real, text: string)

  /** The transcription result; `segments` is `None` when the key is missing. */
  datatype WhisperResult = WhisperResult(segments: Option<seq<Segment>>)

  /** One speaker turn of the diarization, as yielded by `itertracks`. */
  datatype Track = Track(start: real, end: real, speaker: string)

  /** One dictionary of the output list. */
  datatype Utterance = Utterance(speaker: string, start: real, end: real, text: string)

  /** `whisper_result.get("segments", [])`. */
  function SegmentsOf(w: WhisperResult): seq<Segment> {
    match w.segments
    case None => []
    case Some(s) => s
  }

  /** The inclusive overlap test: intervals touching at an endpoint overlap. */
  predicate Overlaps(ws: Segment, track: Track) {
    ws.end >= track.start && ws.start <= track.end
  }

  /** `segment_text` after the inner loop has seen `segs`: the stripped text
      of every overlapping segment, each followed by one space. */
  function Accumulated(track: Track, segs: seq<Segment>): string {
    if segs == [] then ""
    else
      var ws := segs[|segs| - 1];
      Accumulated(track, segs[..|segs| - 1]) + (if Overlaps(ws, track) then Strip(ws.text) + " " else "")
  }

  /** The stripped texts of the segments that overlap the track, in segment order. */
  function OverlapTexts(track: Track, segs: seq<Segment>): seq<string> {
    if segs == [] then []
    else
      var ws := segs[|segs| - 1];
      OverlapTexts(track, segs[..|segs| - 1]) + (if Overlaps(ws, track) then [Strip(ws.text)] else [])
  }

  /** What one track adds to the output: one utterance when its accumulated
      text is not blank, nothing otherwise. */
  function Entry(track: Track, segs: seq<Segment>, round2: real -> real): seq<Utterance> {
    var text := Strip(Accumulated(track, segs));
    if text != [] then [Utterance(track.speaker, round2(track.start), round2(track.end), text)] else []
  }

  /** `Entry` for fixed segments and rounding, as a function of the track. */
  function EntryOf(segs: seq<Segment>, round2: real -> real): Track -> seq<Utterance> {
    t => Entry(t, segs, round2)
  }

  /** The output for a sequence of tracks: each track's entry, in track order. */
  function Merge(tracks: seq<Track>, segs: seq<Segment>, round2: real -> real): seq<Utterance> {
    FlatMap(tracks, EntryOf(segs, round2))
  }

  /** The indices of the tracks that produce an utterance. */
  function Emitted(tracks: seq<Track>, segs: seq<Segment>, round2: real -> real): seq<nat> {
    Hits(tracks, EntryOf(segs, round2))
  }

  /** An utterance carries non-blank, stripped text. */
  predicate HasText(u: Utterance) {
    u.text != [] && Trimmed(u.text)
  }

  /** The merge loop. `round2` stands for `round(x, 2)`. */
  method TranscribeAndDiarize(diarization: seq<Track>, whisperResult: WhisperResult, round2: real -> real)
    returns (output: seq<Utterance>)
    ensures output == Merge(diarization, SegmentsOf(whisperResult), round2)
    ensures |output| <= |diarization|
    ensures forall k :: 0 <= k < |output| ==> HasText(output[k])
  {
    var segments := SegmentsOf(whisperResult);
    output := [];
    for i := 0 to |diarization|
      invariant output == Merge(diarization[..i], segments, round2)
    {
      var segment := diarization[i];
      var segmentText := "";
      for j := 0 to |segments|
        invariant segmentText == Accumulated(segment, segments[..j])
      {
        var ws := segments[j];
        assert segments[..j + 1][..j] == segments[..j];
        if ws.end >= segment.start && ws.start <= segment.end {
          segmentText := segmentText + Strip(ws.text) + " ";
        }
      }
      assert segments[..|segments|] == segments;
      FlatMapSnoc(diarization, i, EntryOf(segments, round2));
      if Strip(segmentText) != [] {
        output := output + [Utterance(segment.speaker, round2(segment.start), round2(segment.end), Strip(segmentText))];
      }
    }
    assert diarization[..|diarization|] == diarization;
    MergeValid(diarization, segments, round2);
  }

  /** A track yields at most one utterance, and only one with non-blank,
      stripped text, the track's speaker and its rounded bounds. */
  lemma EntryValid(track: Track, segs: seq<Segment>, round2: real -> real)
    ensures |Entry(track, segs, round2)| <= 1
    ensures |Entry(track, segs, round2)| > 0 <==> Strip(Accumulated(track, segs)) != []
    ensures forall k :: 0 <= k < |Entry(track, segs, round2)| ==>
      HasText(Entry(track, segs, round2)[k]) &&
      Entry(track, segs, round2)[k] ==
        Utterance(track.speaker, round2(track.start), round2(track.end), Strip(Accumulated(track, segs)))
  {
    StripIsTrimmed(Accumulated(track, segs));
  }

  /** At most one utterance per track, and every utterance carries non-blank,
      stripped text. */
  lemma MergeValid(tracks: seq<Track>, segs: seq<Segment>, round2: real -> real)
    ensures |Merge(tracks, segs, round2)| <= |tracks|
    ensures forall k :: 0 <= k < |Merge(tracks, segs, round2)| ==> HasText(Merge(tracks, segs, round2)[k])
  {
    forall j | 0 <= j < |tracks|
      ensures |Entry(tracks[j], segs, round2)| <= 1
      ensures forall k :: 0 <= k < |Entry(tracks[j], segs, round2)| ==> HasText(Entry(tracks[j], segs, round2)[k])
    {
      EntryValid(tracks[j], segs, round2);
    }
    FlatMapEach(tracks, EntryOf(segs, round2), HasText);
  }

  /** The output for a concatenation of track lists is the concatenation of
      the outputs: each track is handled on its own, in order. */
  lemma MergeAppend(a: seq<Track>, b: seq<Track>, segs: seq<Segment>, round2: real -> real)
    ensures Merge(a + b, segs, round2) == Merge(a, segs, round2) + Merge(b, segs, round2)
  {
    FlatMapAppend(a, b, EntryOf(segs, round2));
  }

  /** The accumulated text of a track is its overlapping segments' stripped
      texts joined by single spaces, plus one trailing space, and empty when
      no segment overlaps. */
  lemma {:induction false} AccumulatedJoin(track: Track, segs: seq<Segment>)
    ensures OverlapTexts(track, segs) == [] ==> Accumulated(track, segs) == ""
    ensures OverlapTexts(track, segs) != [] ==>
      Accumulated(track, segs) == Join(OverlapTexts(track, segs), " ") + " "
    decreases |segs|
  {
    if segs != [] {
      var init := segs[..|segs| - 1];
      var ws := segs[|segs| - 1];
      var xs0 := OverlapTexts(track, init);
      var x := Strip(ws.text);
      AccumulatedJoin(track, init);
      if Overlaps(ws, track) {
        assert OverlapTexts(track, segs) == xs0 + [x];
        if xs0 != [] {
          JoinSnoc(xs0, x, " ");
        } else {
          assert xs0 + [x] == [x];
        }
      } else {
        assert OverlapTexts(track, segs) == xs0;
      }
    }
  }

  /** A track's accumulated text is blank exactly when every overlapping
      segment's text is blank. */
  lemma {:induction false} AccumulatedBlank(track: Track, segs: seq<Segment>)
    ensures Blank(Accumulated(track, segs)) <==>
      forall k :: 0 <= k < |segs| && Overlaps(segs[k], track) ==> Strip(segs[k].text) == []
    decreases |segs|
  {
    if segs != [] {
      var init := segs[..|segs| - 1];
      var ws := segs[|segs| - 1];
      var piece := if Overlaps(ws, track) then Strip(ws.text) + " " else "";
      AccumulatedBlank(track, init);
      BlankAppend(Accumulated(track, init), piece);
      if Overlaps(ws, track) {
        StripIsTrimmed(ws.text);
        BlankAppend(Strip(ws.text), " ");
        StripBlank(Strip(ws.text));
        StripTrimmed(Strip(ws.text));
      }
      assert forall k :: 0 <= k < |init| ==> init[k] == segs[k];
    }
  }

  /** A track yields an utterance exactly when some segment overlapping it
      has non-blank text. */
  lemma EmitIff(track: Track, segs: seq<Segment>, round2: real -> real)
    ensures Entry(track, segs, round2) != [] <==>
      exists k :: 0 <= k < |segs| && Overlaps(segs[k], track) && Strip(segs[k].text) != []
  {
    AccumulatedBlank(track, segs);
    StripBlank(Accumulated(track, segs));
  }

  /** The stripped text of a track is `" ".join(...)` of its overlapping
      segments' stripped texts, stripped once more; it is empty when no
      segment overlaps. A blank text between two others leaves two spaces,
      one at either end of the join disappears. */
  lemma StrippedJoin(track: Track, segs: seq<Segment>)
    ensures OverlapTexts(track, segs) == [] ==> Strip(Accumulated(track, segs)) == []
    ensures OverlapTexts(track, segs) != [] ==>
      Strip(Accumulated(track, segs)) == Strip(Join(OverlapTexts(track, segs), " "))
  {
    AccumulatedJoin(track, segs);
    if OverlapTexts(track, segs) != [] {
      StripSpaceAppend(Join(OverlapTexts(track, segs), " "));
    }
  }

  /** When every overlapping segment has non-blank text and at least one
      overlaps, the utterance text is exactly those texts joined by single
      spaces. */
  lemma SpaceJoined(track: Track, segs: seq<Segment>)
    requires OverlapTexts(track, segs) != []
    requires forall k :: 0 <= k < |OverlapTexts(track, segs)| ==> OverlapTexts(track, segs)[k] != []
    ensures Strip(Accumulated(track, segs)) == Join(OverlapTexts(track, segs), " ")
  {
    var xs := OverlapTexts(track, segs);
    StrippedJoin(track, segs);
    OverlapTextsTrimmed(track, segs);
    JoinTrimmed(xs, " ");
    StripTrimmed(Join(xs, " "));
  }

  lemma {:induction false} OverlapTextsTrimmed(track: Track, segs: seq<Segment>)
    ensures forall k :: 0 <= k < |OverlapTexts(track, segs)| ==> Trimmed(OverlapTexts(track, segs)[k])
    decreases |segs|
  {
    if segs != [] {
      var init := segs[..|segs| - 1];
      OverlapTextsTrimmed(track, init);
      StripIsTrimmed(segs[|segs| - 1].text);
    }
  }

  /** A stripped text is among a track's overlap texts exactly when some
      segment overlapping the track has it as its stripped text. */
  lemma {:induction false} OverlapTextsMembers(track: Track, segs: seq<Segment>, x: string)
    ensures x in OverlapTexts(track, segs) <==>
      exists k :: 0 <= k < |segs| && Overlaps(segs[k], track) && Strip(segs[k].text) == x
    decreases |segs|
  {
    if segs != [] {
      var init := segs[..|segs| - 1];
      OverlapTextsMembers(track, init, x);
      assert forall k :: 0 <= k < |init| ==> init[k] == segs[k];
    }
  }

  /** A segment is not consumed by the first track it overlaps: its text goes
      into every track it overlaps. */
  lemma SharedSegment(t1: Track, t2: Track, segs: seq<Segment>, k: nat)
    requires k < |segs| && Overlaps(segs[k], t1) && Overlaps(segs[k], t2)
    ensures Strip(segs[k].text) in OverlapTexts(t1, segs)
    ensures Strip(segs[k].text) in OverlapTexts(t2, segs)
  {
    OverlapTextsMembers(t1, segs, Strip(segs[k].text));
    OverlapTextsMembers(t2, segs, Strip(segs[k].text));
  }

  /** When the transcription has no `"segments"` key, or an empty list under
      it, the output is empty whatever the tracks. */
  lemma NoSegmentsNoOutput(tracks: seq<Track>, w: WhisperResult, round2: real -> real)
    requires w.segments.None? || w.segments == Some([])
    ensures Merge(tracks, SegmentsOf(w), round2) == []
  {
    MergeNoSegments(tracks, round2);
  }

  /** Without transcription segments there is no output. */
  lemma MergeNoSegments(tracks: seq<Track>, round2: real -> real)
    ensures Merge(tracks, [], round2) == []
  {
    forall j | 0 <= j < |tracks| ensures |Entry(tracks[j], [], round2)| == 0 {
      StripBlank(Accumulated(tracks[j], []));
    }
    FlatMapNone(tracks, EntryOf([], round2));
  }

  /** The utterances come from the emitting tracks, one each, with the
      track's speaker and rounded bounds and the stripped accumulated text. */
  lemma MergeFromTracks(tracks: seq<Track>, segs: seq<Segment>, round2: real -> real)
    ensures |Merge(tracks, segs, round2)| == |Emitted(tracks, segs, round2)|
    ensures forall k :: 0 <= k < |Emitted(tracks, segs, round2)| ==>
      var j := Emitted(tracks, segs, round2)[k];
      j < |tracks| &&
      Merge(tracks, segs, round2)[k] ==
        Utterance(tracks[j].speaker, round2(tracks[j].start), round2(tracks[j].end), Strip(Accumulated(tracks[j], segs)))
  {
    forall j | 0 <= j < |tracks| ensures |Entry(tracks[j], segs, round2)| <= 1 {
      EntryValid(tracks[j], segs, round2);
    }
    FlatMapFromHits(tracks, EntryOf(segs, round2));
    var e := Emitted(tracks, segs, round2);
    forall k | 0 <= k < |e|
      ensures Merge(tracks, segs, round2)[k] ==
        Utterance(tracks[e[k]].speaker, round2(tracks[e[k]].start), round2(tracks[e[k]].end),
                  Strip(Accumulated(tracks[e[k]], segs)))
    {
      EntryValid(tracks[e[k]], segs, round2);
    }
  }

  /** The emitting tracks are listed in strictly increasing order (so each
      track gives at most one utterance and the output keeps track order) and
      are exactly the tracks whose accumulated text is not blank. */
  lemma EmittedExactly(tracks: seq<Track>, segs: seq<Segment>, round2: real -> real)
    ensures forall k :: 0 <= k < |Emitted(tracks, segs, round2)| ==> Emitted(tracks, segs, round2)[k] < |tracks|
    ensures forall k, l :: 0 <= k < l < |Emitted(tracks, segs, round2)| ==>
      Emitted(tracks, segs, round2)[k] < Emitted(tracks, segs, round2)[l]
    ensures forall j :: 0 <= j < |tracks| ==>
      (j in Emitted(tracks, segs, round2) <==> Strip(Accumulated(tracks[j], segs)) != [])
  {
    HitsExactly(tracks, EntryOf(segs, round2));
    forall j | 0 <= j < |tracks|
      ensures |Entry(tracks[j], segs, round2)| > 0 <==> Strip(Accumulated(tracks[j], segs)) != []
    {
      EntryValid(tracks[j], segs, round2);
    }
  }

  /** The worked example: for a track [2.0, 5.0], segments "a" [1.0, 2.0],
      "b" [2.0, 3.0], "c" [4.9, 6.0] and "d" [6.1, 7.0] give the text "a b c";
      "a" counts because it ends exactly where the track starts. */
  lemma WorkedExample(speaker: string)
    ensures Strip(Accumulated(Track(2.0, 5.0, speaker), [
      Segment(1.0, 2.0, "a"), Segment(2.0, 3.0, "b"), Segment(4.9, 6.0, "c"), Segment(6.1, 7.0, "d")])) == "a b c"
  {
    var t := Track(2.0, 5.0, speaker);
    var segs := [Segment(1.0, 2.0, "a"), Segment(2.0, 3.0, "b"), Segment(4.9, 6.0, "c"), Segment(6.1, 7.0, "d")];
    StripTrimmed("a");
    StripTrimmed("b");
    StripTrimmed("c");
    assert segs[..3][..2] == segs[..2];
    assert segs[..2][..1] == segs[..1];
    assert Accumulated(t, segs[..1]) == "a ";
    assert Accumulated(t, segs[..2]) == "a b ";
    assert Accumulated(t, segs[..3]) == "a b c ";
    assert Accumulated(t, segs) == "a b c ";
    assert "a b c" + " " == "a b c ";
    StripTrailingSpace("a b c");
    assert Strip(Accumulated(t, segs)) == "a b c";
  }

  /** A segment whose text is blank still adds its space: between "a" and
      "b" with a blank segment in the middle the text has two spaces. */
  lemma BlankSegmentExample(speaker: string)
    ensures Strip(Accumulated(Track(0.0, 1.0, speaker),
      [Segment(0.0, 1.0, "a"), Segment(0.0, 1.0, "  "), Segment(0.0, 1.0, "b")])) == "a  b"
  {
    var t := Track(0.0, 1.0, speaker);
    var segs := [Segment(0.0, 1.0, "a"), Segment(0.0, 1.0, "  "), Segment(0.0, 1.0, "b")];
    StripTrimmed("a");
    StripTrimmed("b");
    StripBlank("  ");
    assert segs[..2][..1] == segs[..1];
    assert Accumulated(t, segs[..1]) == "a ";
    assert Accumulated(t, segs[..2]) == "a  ";
    assert Accumulated(t, segs) == "a  b ";
    assert "a  b" + " " == "a  b ";
    StripTrailingSpace("a  b");
    assert Strip(Accumulated(t, segs)) == "a  b";
  }
}
