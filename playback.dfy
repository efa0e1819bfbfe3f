/** One frame of SubtitleManager.Update as a function of the playback state:
    which subtitle is current, when it expires, and what the label shows.
    The method Update of class Manager.SubtitleManager is proved equal to `Tick`. */
module Playback {
  import opened SubtitleParser

  /** The fields Update reads and writes: currentSubtitleIndex, displayEndTime,
      and the label (whether its game object is active, and its text). */
  datatype PlaybackState = PlaybackState(index: int, displayEndTime: int, visible: bool, shownText: string)

  /** After the field initialisers and Start: no subtitle yet, deadline 0,
      label hidden. `sceneText` is the text the label had in the scene. */
  function Initial(sceneText: string): (s: PlaybackState)
    ensures s.index == -1 && s.displayEndTime == 0 && !s.visible
  {
    PlaybackState(-1, 0, false, sceneText)
  }

  /** DisplaySubtitle(text, duration) at time `now`. */
  function Show(s: PlaybackState, text: string, duration: int, now: int): PlaybackState
  {
    s.(shownText := text, visible := true, displayEndTime := now + duration)
  }

  /** HideSubtitle(). */
  function Hide(s: PlaybackState): PlaybackState
  {
    s.(visible := false)
  }

  /** Update() with showSubtitles == `enabled`, the list `track` and
      Time.timeSinceLevelLoad == `now`. The index starts at -1 and only ever
      grows, which keeps the list access in range. */
  function Tick(s: PlaybackState, enabled: bool, track: seq<SubtitleEntry>, now: int): (r: PlaybackState)
    requires -1 <= s.index
    ensures s.index <= r.index <= s.index + 1
  {
    if !enabled then Hide(s)
    else if s.index < |track| then
      var h := if s.index >= 0 && now >= s.displayEndTime then Hide(s) else s;
      if h.index + 1 < |track| && now >= h.displayEndTime then
        var i := h.index + 1;
        Show(h.(index := i), track[i].text, track[i].duration, now)
      else h
    else s
  }

  /** The index stays a position of the list or -1, and a visible label shows
      the text of the current subtitle. */
  predicate Valid(s: PlaybackState, track: seq<SubtitleEntry>)
  {
    -1 <= s.index < |track| && (s.visible ==> 0 <= s.index && s.shownText == track[s.index].text)
  }

  // ---------------------------------------------------------------------------
  // One tick

  /** With subtitles switched off a tick only hides the label. */
  lemma DisabledTickHides(s: PlaybackState, track: seq<SubtitleEntry>, now: int)
    requires -1 <= s.index
    ensures Tick(s, false, track, now) == s.(visible := false)
  {
  }

  /** Before the current subtitle's deadline a tick changes nothing. */
  lemma TickBeforeDeadline(s: PlaybackState, track: seq<SubtitleEntry>, now: int)
    requires -1 <= s.index && now < s.displayEndTime
    ensures Tick(s, true, track, now) == s
  {
  }

  /** Once the deadline has passed and there is a next subtitle, the tick
      shows it: the index moves on by one, the label shows its text, and the
      new deadline is now plus its duration. */
  lemma TickAdvances(s: PlaybackState, track: seq<SubtitleEntry>, now: int)
    requires -1 <= s.index && s.index + 1 < |track| && now >= s.displayEndTime
    ensures var next := track[s.index + 1];
      Tick(s, true, track, now)
        == PlaybackState(s.index + 1, now + next.duration, true, next.text)
  {
  }

  /** Once the deadline of the last subtitle has passed the label is hidden
      and the index stays on the last subtitle. */
  lemma TickExhausted(s: PlaybackState, track: seq<SubtitleEntry>, now: int)
    requires 0 <= s.index && s.index + 1 == |track| && now >= s.displayEndTime
    ensures Tick(s, true, track, now) == s.(visible := false)
  {
  }

  /** The index moves on (by one, as Tick's contract says) only when
      subtitles are on and the deadline has passed, and the label then shows
      the new subtitle until now plus its duration. */
  lemma TickIndexStep(s: PlaybackState, enabled: bool, track: seq<SubtitleEntry>, now: int)
    requires Valid(s, track)
    ensures var t := Tick(s, enabled, track, now);
      t.index != s.index ==>
        && enabled && now >= s.displayEndTime && t.visible && t.shownText == track[t.index].text
        && t.displayEndTime == now + track[t.index].duration
  {
  }

  /** Every tick keeps the state valid. */
  lemma TickKeepsValid(s: PlaybackState, enabled: bool, track: seq<SubtitleEntry>, now: int)
    requires Valid(s, track)
    ensures Valid(Tick(s, enabled, track, now), track)
  {
  }

  /** Appending to the list (a later load) keeps the state valid. */
  lemma AppendKeepsValid(s: PlaybackState, track: seq<SubtitleEntry>, more: seq<SubtitleEntry>)
    requires Valid(s, track)
    ensures Valid(s, track + more)
  {
    if s.visible {
      assert (track + more)[s.index] == track[s.index];
    }
  }

  /** The first tick with subtitles on at a time no earlier than 0 shows the
      first subtitle; with an empty list it leaves the initial state. */
  lemma FirstTick(sceneText: string, track: seq<SubtitleEntry>, now: int)
    requires now >= 0
    ensures |track| > 0 ==>
      Tick(Initial(sceneText), true, track, now) == PlaybackState(0, now + track[0].duration, true, track[0].text)
    ensures |track| == 0 ==> Tick(Initial(sceneText), true, track, now) == Initial(sceneText)
  {
  }

  /** Switching subtitles off and on again does not bring the hidden
      subtitle back: until its deadline passes the label stays hidden. */
  lemma ReenableDoesNotReshow(s: PlaybackState, track: seq<SubtitleEntry>, off: int, on: int)
    requires -1 <= s.index && on < s.displayEndTime
    ensures !Tick(Tick(s, false, track, off), true, track, on).visible
  {
    DisabledTickHides(s, track, off);
    TickBeforeDeadline(s.(visible := false), track, on);
  }

  /** After the list ran out, loading more subtitles resumes playback with the
      first new one at the next tick. */
  lemma ResumeAfterAppend(s: PlaybackState, track: seq<SubtitleEntry>, more: seq<SubtitleEntry>, now: int)
    requires 0 <= s.index && s.index + 1 == |track| && |more| > 0 && now >= s.displayEndTime
    ensures Tick(s, true, track + more, now)
      == PlaybackState(s.index + 1, now + more[0].duration, true, more[0].text)
  {
    assert (track + more)[s.index + 1] == more[0];
    TickAdvances(s, track + more, now);
  }

  // ---------------------------------------------------------------------------
  // Many ticks

  /** One Update call: whether subtitles are on, and the time. */
  datatype Frame = Frame(enabled: bool, now: int)

  function RunTicks(s: PlaybackState, track: seq<SubtitleEntry>, frames: seq<Frame>): (r: PlaybackState)
    requires -1 <= s.index
    ensures s.index <= r.index <= s.index + |frames|
    decreases |frames|
  {
    if frames == [] then s
    else RunTicks(Tick(s, frames[0].enabled, track, frames[0].now), track, frames[1..])
  }

  /** Ticks keep the state valid and never move the index back. */
  lemma {:induction false} RunTicksKeepsValid(s: PlaybackState, track: seq<SubtitleEntry>, frames: seq<Frame>)
    requires Valid(s, track)
    ensures Valid(RunTicks(s, track, frames), track)
    decreases |frames|
  {
    if frames != [] {
      var t := Tick(s, frames[0].enabled, track, frames[0].now);
      TickKeepsValid(s, frames[0].enabled, track, frames[0].now);
      TickIndexStep(s, frames[0].enabled, track, frames[0].now);
      RunTicksKeepsValid(t, track, frames[1..]);
    }
  }

  /** No subtitle is skipped: every index the playback passes through was
      shown, with its own text, by one of the frames, and at a time no
      earlier than the previous subtitle's deadline. */
  lemma {:induction false} NoSubtitleSkipped(s: PlaybackState, track: seq<SubtitleEntry>, frames: seq<Frame>, i: int)
    returns (f: int)
    requires Valid(s, track)
    requires s.index < i <= RunTicks(s, track, frames).index
    ensures 0 <= f < |frames|
    ensures var before := RunTicks(s, track, frames[..f]);
      var after := Tick(before, frames[f].enabled, track, frames[f].now);
      && before.index == i - 1 && after.index == i
      && frames[f].enabled && frames[f].now >= before.displayEndTime
      && after.visible && after.shownText == track[i].text
    decreases |frames|
  {
    assert frames != [];
    var t := Tick(s, frames[0].enabled, track, frames[0].now);
    TickKeepsValid(s, frames[0].enabled, track, frames[0].now);
    TickIndexStep(s, frames[0].enabled, track, frames[0].now);
    assert frames[..0] == [];
    if t.index == i {
      f := 0;
    } else {
      RunTicksKeepsValid(t, track, frames[1..]);
      var g := NoSubtitleSkipped(t, track, frames[1..], i);
      RunTicksPrefix(s, track, frames, g);
      assert frames[1..][g] == frames[g + 1];
      f := g + 1;
    }
  }

  /** Running the first f + 1 frames is one tick, then the next f frames. */
  lemma RunTicksPrefix(s: PlaybackState, track: seq<SubtitleEntry>, frames: seq<Frame>, f: int)
    requires -1 <= s.index && 0 <= f < |frames|
    ensures RunTicks(s, track, frames[..f + 1])
      == RunTicks(Tick(s, frames[0].enabled, track, frames[0].now), track, frames[1..][..f])
  {
    assert frames[..f + 1][1..] == frames[1..][..f];
  }
}
