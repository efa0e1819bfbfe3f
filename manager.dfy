/** Class SubtitleManager: its fields and the methods that update them in
    place, each proved against the functions of SubtitleParser and Playback. */
module Manager {
  import opened Text
  import opened SubtitleParser
  import opened Playback

  class SubtitleManager {
    /** Public switch: subtitles on or off. */
    var showSubtitles: bool
    /** The loaded subtitles, in file order. */
    var subtitles: seq<SubtitleEntry>
    /** When the subtitle on screen expires, in seconds since the level loaded. */
    var displayEndTime: int
    /** The subtitle shown last; -1 before the first. */
    var currentSubtitleIndex: int
    /** Whether the label's game object is active. */
    var labelActive: bool
    /** The label's text. */
    var labelText: string

    /** The part of the object one frame of playback works on. */
    function State(): PlaybackState
      reads this
    {
      PlaybackState(currentSubtitleIndex, displayEndTime, labelActive, labelText)
    }

    /** Class invariant: the index is -1 or a position of the list, and an
        active label shows the current subtitle's text. */
    predicate Valid()
      reads this
    {
      Playback.Valid(State(), subtitles)
    }

    /** The field initialisers; the label starts as the scene left it. */
    constructor (sceneActive: bool, sceneText: string)
      ensures !showSubtitles && subtitles == [] && displayEndTime == 0 && currentSubtitleIndex == -1
      ensures labelActive == sceneActive && labelText == sceneText
    {
      showSubtitles := false;
      subtitles := [];
      displayEndTime := 0;
      currentSubtitleIndex := -1;
      labelActive := sceneActive;
      labelText := sceneText;
    }

    /** Start hides the label; on a fresh object that makes it valid. */
    method Start()
      modifies this
      ensures State() == old(State()).(visible := false)
      ensures showSubtitles == old(showSubtitles) && subtitles == old(subtitles)
      ensures old(currentSubtitleIndex) == -1 ==> Valid()
    {
      HideSubtitle();
    }

    /** One frame at time `now` (Time.timeSinceLevelLoad). The index is -1
        or was advanced by this method, so it is never below -1. */
    method Update(now: int)
      requires -1 <= currentSubtitleIndex
      modifies this
      ensures State() == Tick(old(State()), showSubtitles, subtitles, now)
      ensures showSubtitles == old(showSubtitles) && subtitles == old(subtitles)
      ensures old(Valid()) ==> Valid()
    {
      ghost var before := State();
      ghost var wasValid := Valid();
      if showSubtitles {
        var timer := now;
        if currentSubtitleIndex < |subtitles| {
          if currentSubtitleIndex >= 0 {
            if timer >= displayEndTime {
              HideSubtitle();
            }
          }
          if currentSubtitleIndex + 1 < |subtitles| && timer >= displayEndTime {
            currentSubtitleIndex := currentSubtitleIndex + 1;
            var nextSubtitle := subtitles[currentSubtitleIndex];
            DisplaySubtitle(nextSubtitle.text, nextSubtitle.duration, now);
          }
        }
      } else {
        HideSubtitle();
      }
      if wasValid {
        TickKeepsValid(before, showSubtitles, subtitles, now);
      }
    }

    /** Shows `text` until `now` plus `duration`. */
    method DisplaySubtitle(text: string, duration: int, now: int)
      modifies this
      ensures State() == Show(old(State()), text, duration, now)
      ensures showSubtitles == old(showSubtitles) && subtitles == old(subtitles)
    {
      labelText := text;
      labelActive := true;
      displayEndTime := now + duration;
    }

    /** Deactivates the label. */
    method HideSubtitle()
      modifies this
      ensures State() == Hide(old(State()))
      ensures showSubtitles == old(showSubtitles) && subtitles == old(subtitles)
    {
      labelActive := false;
    }

    /** Reads the lines of a subtitle file (File.ReadAllLines is the caller's
        part) and appends each new subtitle they define. */
    method LoadSubtitlesFromFile(lines: seq<string>)
      modifies this`subtitles
      ensures subtitles == Load(old(subtitles), lines)
      ensures State() == old(State()) && showSubtitles == old(showSubtitles)
      ensures old(Valid()) ==> Valid()
    {
      ghost var kinds := ClassifyAll(lines);
      var timePart := "";
      var i := 0;
      while i < |lines|
        invariant 0 <= i <= |lines|
        invariant Run(ParserState(timePart, subtitles), kinds[i..]) == Run(ParserState("", old(subtitles)), kinds)
        invariant old(Valid()) ==> Valid()
      {
        ghost var st := ParserState(timePart, subtitles);
        ClassifyAllAt(lines, i);
        LoopStep(st, kinds, i);
        timePart := ReadLine(lines[i], timePart);
        i := i + 1;
      }
    }

    /** The body of the loop over the lines: `timePart` is the duration
        staged so far, `staged` the one staged after this line. */
    method ReadLine(line: string, timePart: string) returns (staged: string)
      modifies this`subtitles
      ensures ParserState(staged, subtitles) == Step(ParserState(timePart, old(subtitles)), Classify(line))
      ensures old(Valid()) ==> Valid()
    {
      staged := timePart;
      ghost var st := ParserState(timePart, subtitles);
      ghost var kind := Classify(line);
      StepEffect(st, kind);
      var trimmedLine := Trim(line);
      if IsDirective(trimmedLine, DurationPrefix) {
        staged := Payload(trimmedLine, DurationPrefix);
        assert kind == DurationLine(staged);
      } else if IsDirective(trimmedLine, SubtitlePrefix) {
        var subtitleText := Payload(trimmedLine, SubtitlePrefix);
        assert kind == SubtitleLine(subtitleText);
        ghost var c := LineCandidate(timePart, kind);
        if timePart != "" && subtitleText != "" {
          var durationInSeconds := ParseTimeToSeconds(timePart);
          // Throws: the handler catches the exception and the line adds nothing.
          if durationInSeconds.Int? {
            assert c == Some(SubtitleEntry(durationInSeconds.value, subtitleText));
            var duplicate := SubtitleExists(durationInSeconds.value, subtitleText);
            if !duplicate {
              subtitles := subtitles + [SubtitleEntry(durationInSeconds.value, subtitleText)];
              if Playback.Valid(State(), st.subtitles) {
                AppendKeepsValid(State(), st.subtitles, [c.value]);
              }
            }
          } else {
            assert c == None;
          }
        } else {
          assert c == None;
        }
      } else {
        // Any other non-blank line only draws a warning in the log.
        assert !kind.DurationLine? && !kind.SubtitleLine?;
      }
    }

    /** Whether an entry with this duration and text is already in the list. */
    method SubtitleExists(duration: int, text: string) returns (found: bool)
      ensures found <==> SubtitleEntry(duration, text) in subtitles
    {
      var k := 0;
      while k < |subtitles|
        invariant 0 <= k <= |subtitles|
        invariant SubtitleEntry(duration, text) !in subtitles[..k]
      {
        var entry := subtitles[k];
        if entry.duration == duration && entry.text == text {
          return true;
        }
        assert subtitles[..k + 1] == subtitles[..k] + [entry];
        k := k + 1;
      }
      assert subtitles[..k] == subtitles;
      return false;
    }
  }

  /** The loop consumes one classified line per iteration. */
  lemma LoopStep(st: ParserState, kinds: seq<LineKind>, i: int)
    requires 0 <= i < |kinds|
    ensures Run(st, kinds[i..]) == Run(Step(st, kinds[i]), kinds[i + 1..])
  {
    assert kinds[i..][0] == kinds[i] && kinds[i..][1..] == kinds[i + 1..];
  }
}
