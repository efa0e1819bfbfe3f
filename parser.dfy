/** The subtitle file parser of SubtitleManager (LoadSubtitlesFromFile,
    ParseTimeToSeconds, SubtitleExists) as functions over the lines of the file.
    The imperative loop in module Manager is proved equal to `Load`. */
module SubtitleParser {
  import opened Text

  /** One subtitle: how many seconds it stays on screen, and its text. */
  datatype SubtitleEntry = SubtitleEntry(duration: int, text: string)

  const DurationPrefix: string := "[DURATION=\""
  const SubtitlePrefix: string := "[SUBTITLE=\""
  const DirectiveSuffix: string := "\"]"

  /** What one line of the file is, after String.Trim(). */
  datatype LineKind =
    | DurationLine(payload: string)
    | SubtitleLine(payload: string)
    | Unrecognized(line: string)
    | Blank

  predicate IsDirective(trimmed: string, prefix: string)
  {
    StartsWith(trimmed, prefix) && EndsWith(trimmed, DirectiveSuffix)
  }

  /** The payload of a directive: every occurrence of the prefix, then every
      occurrence of the suffix, is deleted (String.Replace), then the rest is trimmed. */
  function Payload(trimmed: string, prefix: string): string
    requires prefix != []
  {
    Trim(RemoveAll(RemoveAll(trimmed, prefix), DirectiveSuffix))
  }

  function Classify(line: string): LineKind
  {
    var t := Trim(line);
    if IsDirective(t, DurationPrefix) then DurationLine(Payload(t, DurationPrefix))
    else if IsDirective(t, SubtitlePrefix) then SubtitleLine(Payload(t, SubtitlePrefix))
    else if t != [] then Unrecognized(t)
    else Blank
  }

  /** C#'s unchecked 32-bit int arithmetic: `x` reduced into the Int32 range. */
  function Wrap32(x: int): (r: int)
    ensures MinInt32 <= r <= MaxInt32
    ensures (r - x) % 0x1_0000_0000 == 0
    ensures MinInt32 <= x <= MaxInt32 ==> r == x
  {
    (x - MinInt32) % 0x1_0000_0000 + MinInt32
  }

  /** ParseTimeToSeconds: Throws stands for the exception Int32.Parse throws on
      a field that is not a 32-bit integer, which the loader catches. */
  function ParseTimeToSeconds(time: string): (r: ParsedInt)
    ensures r.Int? ==> MinInt32 <= r.value <= MaxInt32
    ensures CountOf(time, ':') != 1 ==> r == Int(0)
    ensures r.Throws? ==> CountOf(time, ':') == 1
  {
    var timeParts := Split(time, ':');
    if |timeParts| == 2 then TimeOfFields(ParseInt(timeParts[0]), ParseInt(timeParts[1]))
    else Int(0)
  }

  /** The conversion of the two parsed fields: minutes * 60 + seconds in
      32-bit arithmetic, Throws when either field failed to parse. */
  function TimeOfFields(minutes: ParsedInt, seconds: ParsedInt): (r: ParsedInt)
    ensures r.Int? <==> minutes.Int? && seconds.Int?
    ensures r.Int? ==> MinInt32 <= r.value <= MaxInt32
  {
    match (minutes, seconds)
    case (Int(m), Int(s)) => Int(Wrap32(m * 60 + s))
    case _ => Throws
  }

  /** The entry a subtitle line with payload `text` proposes while `timePart`
      is staged; None when either is empty or the time does not parse. */
  function Candidate(timePart: string, text: string): (c: Option<SubtitleEntry>)
    ensures c.Some? <==> timePart != "" && text != "" && ParseTimeToSeconds(timePart).Int?
    ensures c.Some? ==> c.value == SubtitleEntry(ParseTimeToSeconds(timePart).value, text)
  {
    if timePart != "" && text != "" then
      match ParseTimeToSeconds(timePart)
      case Int(d) => Some(SubtitleEntry(d, text))
      case Throws => None
    else
      None
  }

  /** Classify every line of the file, in order. */
  function ClassifyAll(lines: seq<string>): (kinds: seq<LineKind>)
    ensures |kinds| == |lines|
  {
    MapSeq(Classify, lines)
  }

  /** The i-th kind is the classification of the i-th line. */
  lemma ClassifyAllAt(lines: seq<string>, i: int)
    requires 0 <= i < |lines|
    ensures ClassifyAll(lines)[i] == Classify(lines[i])
  {
    MapSeqAt(Classify, lines, i);
  }

  /** The loop's state: the staged duration text and the subtitle list. */
  datatype ParserState = ParserState(timePart: string, subtitles: seq<SubtitleEntry>)

  /** One iteration of the foreach loop, on the classified line. A candidate
      already in the list is skipped (SubtitleExists); a candidate whose time
      throws in Int32.Parse is dropped by the handler. */
  function Step(st: ParserState, kind: LineKind): ParserState
  {
    match kind
    case DurationLine(p) => st.(timePart := p)
    case SubtitleLine(t) =>
      (match Candidate(st.timePart, t)
       case Some(e) => if e in st.subtitles then st else st.(subtitles := st.subtitles + [e])
       case None => st)
    case _ => st
  }

  /** The loop over the remaining lines. */
  function Run(st: ParserState, kinds: seq<LineKind>): ParserState
    decreases |kinds|
  {
    if kinds == [] then st else Run(Step(st, kinds[0]), kinds[1..])
  }

  /** LoadSubtitlesFromFile: the staged duration starts empty on every call,
      the list carries over. */
  function Load(subtitles: seq<SubtitleEntry>, lines: seq<string>): seq<SubtitleEntry>
  {
    Run(ParserState("", subtitles), ClassifyAll(lines)).subtitles
  }

  // ---------------------------------------------------------------------------
  // The staged duration

  /** The staged duration after one line. */
  function StagedAfter(timePart: string, kind: LineKind): string
  {
    if kind.DurationLine? then kind.payload else timePart
  }

  /** Reference definition: the payload of the last duration line of `kinds`,
      or `timePart` when there is none. */
  function LastDuration(timePart: string, kinds: seq<LineKind>): string
    decreases |kinds|
  {
    if kinds == [] then timePart
    else if kinds[|kinds| - 1].DurationLine? then kinds[|kinds| - 1].payload
    else LastDuration(timePart, kinds[..|kinds| - 1])
  }

  /** The entry a line proposes; None for any line that is not a subtitle line. */
  function LineCandidate(timePart: string, kind: LineKind): Option<SubtitleEntry>
  {
    if kind.SubtitleLine? then Candidate(timePart, kind.payload) else None
  }

  /** A line changes the staged duration only when it is a duration line, and
      changes the list only by appending its candidate when that is new. */
  lemma StepEffect(st: ParserState, kind: LineKind)
    ensures Step(st, kind).timePart == StagedAfter(st.timePart, kind)
    ensures var c := LineCandidate(st.timePart, kind);
      Step(st, kind).subtitles ==
        if c.Some? && c.value !in st.subtitles then st.subtitles + [c.value] else st.subtitles
  {
  }

  lemma {:induction false} LastDurationAfterFirst(timePart: string, kind: LineKind, rest: seq<LineKind>)
    ensures LastDuration(timePart, [kind] + rest) == LastDuration(StagedAfter(timePart, kind), rest)
    decreases |rest|
  {
    var all := [kind] + rest;
    if rest == [] {
      assert all[..0] == [];
    } else {
      assert all[|all| - 1] == rest[|rest| - 1];
      assert all[..|all| - 1] == [kind] + rest[..|rest| - 1];
      LastDurationAfterFirst(timePart, kind, rest[..|rest| - 1]);
    }
  }

  /** The staged duration at the end of a run is the payload of the most
      recent duration line; subtitle, unrecognised and blank lines leave it alone. */
  lemma {:induction false} RunStagesLastDuration(st: ParserState, kinds: seq<LineKind>)
    ensures Run(st, kinds).timePart == LastDuration(st.timePart, kinds)
    decreases |kinds|
  {
    if kinds != [] {
      RunStagesLastDuration(Step(st, kinds[0]), kinds[1..]);
      LastDurationAfterFirst(st.timePart, kinds[0], kinds[1..]);
      assert [kinds[0]] + kinds[1..] == kinds;
    }
  }

  // ---------------------------------------------------------------------------
  // The list only grows, without duplicates

  predicate NoDuplicates(s: seq<SubtitleEntry>)
  {
    forall i, j :: 0 <= i < j < |s| ==> s[i] != s[j]
  }

  /** `after` extends `before`, and every entry past `before` has non-empty
      text and does not occur earlier in `after`. */
  predicate AppendsOnly(before: seq<SubtitleEntry>, after: seq<SubtitleEntry>)
  {
    && |before| <= |after|
    && after[..|before|] == before
    && (forall k :: |before| <= k < |after| ==> after[k].text != "" && after[k] !in after[..k])
  }

  lemma AppendsOnlyTrans(a: seq<SubtitleEntry>, b: seq<SubtitleEntry>, c: seq<SubtitleEntry>)
    requires AppendsOnly(a, b) && AppendsOnly(b, c)
    ensures AppendsOnly(a, c)
  {
    assert c[..|a|] == c[..|b|][..|a|];
    forall k | |a| <= k < |b|
      ensures c[k].text != "" && c[k] !in c[..k]
    {
      assert c[k] == c[..|b|][k];
      assert c[..k] == c[..|b|][..k];
    }
  }

  /** One line appends at most one entry, with non-empty text, that was not
      in the list. */
  lemma StepAppendsOnly(st: ParserState, kind: LineKind)
    ensures AppendsOnly(st.subtitles, Step(st, kind).subtitles)
  {
    StepEffect(st, kind);
    var n := Step(st, kind).subtitles;
    if |n| > |st.subtitles| {
      assert n[..|st.subtitles|] == st.subtitles;
    }
  }

  /** Loading only appends: the old list is a prefix of the new one, and
      every appended entry has non-empty text and is not already present. */
  lemma {:induction false} RunAppendsOnly(st: ParserState, kinds: seq<LineKind>)
    ensures AppendsOnly(st.subtitles, Run(st, kinds).subtitles)
    decreases |kinds|
  {
    if kinds == [] {
      assert Run(st, kinds).subtitles[..|st.subtitles|] == st.subtitles;
    } else {
      var next := Step(st, kinds[0]);
      StepAppendsOnly(st, kinds[0]);
      RunAppendsOnly(next, kinds[1..]);
      AppendsOnlyTrans(st.subtitles, next.subtitles, Run(next, kinds[1..]).subtitles);
    }
  }

  /** A call to LoadSubtitlesFromFile keeps the list it started with as a
      prefix and appends only new entries with non-empty text. */
  lemma LoadAppendsOnly(subtitles: seq<SubtitleEntry>, lines: seq<string>)
    ensures AppendsOnly(subtitles, Load(subtitles, lines))
  {
    RunAppendsOnly(ParserState("", subtitles), ClassifyAll(lines));
  }

  /** No duplicate is ever added. */
  lemma LoadKeepsNoDuplicates(subtitles: seq<SubtitleEntry>, lines: seq<string>)
    requires NoDuplicates(subtitles)
    ensures NoDuplicates(Load(subtitles, lines))
  {
    RunAppendsOnly(ParserState("", subtitles), ClassifyAll(lines));
    var r := Load(subtitles, lines);
    forall i, j | 0 <= i < j < |r|
      ensures r[i] != r[j]
    {
      if j < |subtitles| {
        assert r[i] == subtitles[i] && r[j] == subtitles[j];
      } else {
        assert r[i] in r[..j];
      }
    }
  }

  /** Where an appended entry comes from: some subtitle line whose payload is
      its text, converted with the duration staged just before that line. */
  lemma {:induction false} RunEntryOrigin(st: ParserState, kinds: seq<LineKind>, k: int) returns (j: int)
    requires |st.subtitles| <= k < |Run(st, kinds).subtitles|
    ensures 0 <= j < |kinds|
    ensures LineCandidate(LastDuration(st.timePart, kinds[..j]), kinds[j]) == Some(Run(st, kinds).subtitles[k])
    decreases |kinds|
  {
    assert kinds != [];
    var next := Step(st, kinds[0]);
    if k < |next.subtitles| {
      EntryFromFirstLine(st, kinds, k);
      j := 0;
    } else {
      assert Run(st, kinds) == Run(next, kinds[1..]);
      var i := RunEntryOrigin(next, kinds[1..], k);
      StepEffect(st, kinds[0]);
      EntryFromLaterLine(st.timePart, kinds, i);
      ghost var staged := LastDuration(st.timePart, kinds[..i + 1]);
      assert LineCandidate(staged, kinds[i + 1]) == Some(Run(next, kinds[1..]).subtitles[k]);
      j := i + 1;
    }
  }

  /** The case of RunEntryOrigin where the first line appended the entry. */
  lemma EntryFromFirstLine(st: ParserState, kinds: seq<LineKind>, k: int)
    requires kinds != [] && |st.subtitles| <= k < |Step(st, kinds[0]).subtitles|
    requires k < |Run(st, kinds).subtitles|
    ensures LineCandidate(LastDuration(st.timePart, kinds[..0]), kinds[0]) == Some(Run(st, kinds).subtitles[k])
  {
    var next := Step(st, kinds[0]);
    var r := Run(st, kinds).subtitles;
    assert r == Run(next, kinds[1..]).subtitles;
    StepEffect(st, kinds[0]);
    RunAppendsOnly(next, kinds[1..]);
    assert r[..|next.subtitles|] == next.subtitles;
    assert r[k] == next.subtitles[k];
    assert kinds[..0] == [];
  }

  /** The case of RunEntryOrigin where a later line appended the entry: line
      i of the rest is line i + 1, and the duration staged before it after the
      first line is the one staged before line i + 1. */
  lemma EntryFromLaterLine(timePart: string, kinds: seq<LineKind>, i: int)
    requires kinds != [] && 0 <= i < |kinds| - 1
    ensures kinds[1..][i] == kinds[i + 1]
    ensures LastDuration(StagedAfter(timePart, kinds[0]), kinds[1..][..i]) == LastDuration(timePart, kinds[..i + 1])
  {
    LastDurationAfterFirst(timePart, kinds[0], kinds[1..][..i]);
    assert [kinds[0]] + kinds[1..][..i] == kinds[..i + 1];
    assert kinds[1..][i] == kinds[i + 1];
  }

  /** Every entry a call appends comes from a subtitle line of that call whose
      payload is its text, and its duration is ParseTimeToSeconds of the
      non-empty duration payload most recently staged before that line. */
  lemma LoadAppendedEntries(subtitles: seq<SubtitleEntry>, lines: seq<string>, k: int)
    requires |subtitles| <= k < |Load(subtitles, lines)|
    ensures var e := Load(subtitles, lines)[k];
      exists j :: (0 <= j < |lines|
        && Classify(lines[j]) == SubtitleLine(e.text)
        && e.text != ""
        && LastDuration("", ClassifyAll(lines)[..j]) != ""
        && ParseTimeToSeconds(LastDuration("", ClassifyAll(lines)[..j])) == Int(e.duration))
  {
    var kinds := ClassifyAll(lines);
    var j := RunEntryOrigin(ParserState("", subtitles), kinds, k);
    ClassifyAllAt(lines, j);
  }

  // ---------------------------------------------------------------------------
  // The order of the appended entries

  /** The loop over two runs of lines is the loop over the first, then over
      the second from where the first left off. */
  lemma {:induction false} RunAppend(st: ParserState, a: seq<LineKind>, b: seq<LineKind>)
    ensures Run(st, a + b) == Run(Run(st, a), b)
    decreases |a|
  {
    if a == [] {
      assert a + b == b;
    } else {
      assert (a + b)[0] == a[0] && (a + b)[1..] == a[1..] + b;
      RunAppend(Step(st, a[0]), a[1..], b);
    }
  }

  /** Entries are appended in the order of the lines that propose them: the
      line j that appends entry k finds exactly the first k entries in the
      list, and leaves exactly the first k + 1. */
  lemma {:induction false} RunEntryPosition(st: ParserState, kinds: seq<LineKind>, k: int) returns (j: int)
    requires |st.subtitles| <= k < |Run(st, kinds).subtitles|
    ensures 0 <= j < |kinds|
    ensures Run(st, kinds[..j]).subtitles == Run(st, kinds).subtitles[..k]
    ensures Step(Run(st, kinds[..j]), kinds[j]).subtitles == Run(st, kinds).subtitles[..k + 1]
    decreases |kinds|
  {
    assert kinds != [];
    var next := Step(st, kinds[0]);
    if k < |next.subtitles| {
      PositionOfFirstLine(st, kinds, k);
      j := 0;
    } else {
      assert Run(st, kinds) == Run(next, kinds[1..]);
      var i := RunEntryPosition(next, kinds[1..], k);
      PositionOfLaterLine(st, kinds, i);
      j := i + 1;
    }
  }

  /** The case of RunEntryPosition where the first line appended the entry. */
  lemma PositionOfFirstLine(st: ParserState, kinds: seq<LineKind>, k: int)
    requires kinds != [] && |st.subtitles| <= k < |Step(st, kinds[0]).subtitles|
    requires k < |Run(st, kinds).subtitles|
    ensures Run(st, kinds[..0]).subtitles == Run(st, kinds).subtitles[..k]
    ensures Step(Run(st, kinds[..0]), kinds[0]).subtitles == Run(st, kinds).subtitles[..k + 1]
  {
    var next := Step(st, kinds[0]);
    var r := Run(st, kinds).subtitles;
    assert r == Run(next, kinds[1..]).subtitles;
    StepEffect(st, kinds[0]);
    RunAppendsOnly(next, kinds[1..]);
    assert r[..|next.subtitles|] == next.subtitles;
    assert kinds[..0] == [];
    assert k == |st.subtitles| && |next.subtitles| == k + 1;
    assert r[..k] == next.subtitles[..k] == st.subtitles;
  }

  /** The case of RunEntryPosition where a later line appended the entry:
      the first i + 1 lines are the first line, then the first i of the rest. */
  lemma PositionOfLaterLine(st: ParserState, kinds: seq<LineKind>, i: int)
    requires kinds != [] && 0 <= i < |kinds| - 1
    ensures Run(st, kinds[..i + 1]) == Run(Step(st, kinds[0]), kinds[1..][..i])
    ensures kinds[1..][i] == kinds[i + 1]
  {
    var pre := kinds[..i + 1];
    assert pre[0] == kinds[0] && pre[1..] == kinds[1..][..i];
  }

  // ---------------------------------------------------------------------------
  // Deduplication across calls

  /** Every candidate the lines propose, starting from `timePart`, is already in `s`. */
  predicate Covers(timePart: string, kinds: seq<LineKind>, s: seq<SubtitleEntry>)
    decreases |kinds|
  {
    kinds == [] ||
    ((LineCandidate(timePart, kinds[0]).Some? ==> LineCandidate(timePart, kinds[0]).value in s)
     && Covers(StagedAfter(timePart, kinds[0]), kinds[1..], s))
  }

  lemma {:induction false} CoversGrows(timePart: string, kinds: seq<LineKind>, s: seq<SubtitleEntry>, t: seq<SubtitleEntry>)
    requires Covers(timePart, kinds, s)
    requires forall e :: e in s ==> e in t
    ensures Covers(timePart, kinds, t)
    decreases |kinds|
  {
    if kinds != [] {
      CoversGrows(StagedAfter(timePart, kinds[0]), kinds[1..], s, t);
    }
  }

  /** A run over lines whose candidates are all present changes no entry. */
  lemma {:induction false} CoveredRunAddsNothing(timePart: string, kinds: seq<LineKind>, s: seq<SubtitleEntry>)
    requires Covers(timePart, kinds, s)
    ensures Run(ParserState(timePart, s), kinds).subtitles == s
    decreases |kinds|
  {
    if kinds != [] {
      StepEffect(ParserState(timePart, s), kinds[0]);
      CoveredRunAddsNothing(StagedAfter(timePart, kinds[0]), kinds[1..], s);
    }
  }

  /** After a run, every candidate of its lines is in the list. */
  lemma {:induction false} RunCoversItsLines(st: ParserState, kinds: seq<LineKind>)
    ensures Covers(st.timePart, kinds, Run(st, kinds).subtitles)
    decreases |kinds|
  {
    if kinds != [] {
      var next := Step(st, kinds[0]);
      var r := Run(st, kinds).subtitles;
      StepEffect(st, kinds[0]);
      RunCoversItsLines(next, kinds[1..]);
      RunAppendsOnly(next, kinds[1..]);
      var c := LineCandidate(st.timePart, kinds[0]);
      if c.Some? {
        assert c.value in next.subtitles;
        assert next.subtitles == r[..|next.subtitles|];
      }
    }
  }

  /** Loading lines again into any list that already holds what they loaded
      (for instance the same list after more loads) leaves it unchanged. */
  lemma LoadAgainAddsNothing(subtitles: seq<SubtitleEntry>, lines: seq<string>, later: seq<SubtitleEntry>)
    requires forall e :: e in Load(subtitles, lines) ==> e in later
    ensures Load(later, lines) == later
  {
    var kinds := ClassifyAll(lines);
    RunCoversItsLines(ParserState("", subtitles), kinds);
    CoversGrows("", kinds, Load(subtitles, lines), later);
    CoveredRunAddsNothing("", kinds, later);
  }

  /** Loading the same lines twice gives the list of loading them once. */
  lemma LoadIdempotent(subtitles: seq<SubtitleEntry>, lines: seq<string>)
    ensures Load(Load(subtitles, lines), lines) == Load(subtitles, lines)
  {
    LoadAgainAddsNothing(subtitles, lines, Load(subtitles, lines));
  }

  /** Loading a duplicate in a later call adds nothing, even though that call
      starts with no staged duration. */
  lemma LoadAfterLoadDeduplicates(subtitles: seq<SubtitleEntry>, first: seq<string>, second: seq<string>)
    ensures Load(Load(Load(subtitles, first), second), first) == Load(Load(subtitles, first), second)
  {
    var once := Load(subtitles, first);
    RunAppendsOnly(ParserState("", once), ClassifyAll(second));
    var both := Load(once, second);
    forall e | e in once
      ensures e in both
    {
      assert both[..|once|] == once;
    }
    LoadAgainAddsNothing(subtitles, first, both);
  }

  /** The staged duration is local to a call: a subtitle line before any
      duration line of the same call adds nothing. */
  lemma LoadStartsUnstaged(subtitles: seq<SubtitleEntry>, line: string, rest: seq<string>)
    requires Classify(line).SubtitleLine?
    ensures Load(subtitles, [line] + rest) == Load(subtitles, rest)
  {
    ClassifyAllCons(line, rest);
    RunStartsUnstaged(subtitles, Classify(line), ClassifyAll(rest));
  }

  lemma RunStartsUnstaged(subtitles: seq<SubtitleEntry>, kind: LineKind, kinds: seq<LineKind>)
    requires kind.SubtitleLine?
    ensures Run(ParserState("", subtitles), [kind] + kinds) == Run(ParserState("", subtitles), kinds)
  {
    assert ([kind] + kinds)[0] == kind && ([kind] + kinds)[1..] == kinds;
    assert Candidate("", kind.payload).None?;
  }

  /** More generally, every line of a call that comes before its first
      duration line adds nothing: with nothing staged, subtitle lines have no
      candidate, and unrecognised and blank lines change nothing. */
  lemma LoadSkipsUnstagedPrefix(subtitles: seq<SubtitleEntry>, pre: seq<string>, rest: seq<string>)
    requires forall k :: 0 <= k < |pre| ==> !Classify(pre[k]).DurationLine?
    ensures Load(subtitles, pre + rest) == Load(subtitles, rest)
  {
    MapSeqAppend(Classify, pre, rest);
    var kinds := ClassifyAll(pre);
    forall k | 0 <= k < |kinds|
      ensures !kinds[k].DurationLine?
    {
      ClassifyAllAt(pre, k);
    }
    RunSkipsUnstagedPrefix(subtitles, kinds, ClassifyAll(rest));
  }

  lemma {:induction false} RunSkipsUnstagedPrefix(subtitles: seq<SubtitleEntry>, pre: seq<LineKind>, rest: seq<LineKind>)
    requires forall k :: 0 <= k < |pre| ==> !pre[k].DurationLine?
    ensures Run(ParserState("", subtitles), pre + rest) == Run(ParserState("", subtitles), rest)
    decreases |pre|
  {
    var st := ParserState("", subtitles);
    if pre == [] {
      assert pre + rest == rest;
    } else {
      assert (pre + rest)[0] == pre[0] && (pre + rest)[1..] == pre[1..] + rest;
      assert Step(st, pre[0]) == st by {
        if pre[0].SubtitleLine? {
          assert Candidate("", pre[0].payload).None?;
        }
      }
      RunSkipsUnstagedPrefix(subtitles, pre[1..], rest);
    }
  }

  lemma ClassifyAllCons(line: string, rest: seq<string>)
    ensures ClassifyAll([line] + rest) == [Classify(line)] + ClassifyAll(rest)
  {
    MapSeqCons(Classify, line, rest);
  }

  // ---------------------------------------------------------------------------
  // The line format

  /** A directive prefix followed by a rest free of that prefix and ending
      with the closing marker: the line is already trimmed, it is recognised,
      and its payload is the rest with every closing marker removed, trimmed. */
  lemma DirectiveLine(prefix: string, rest: string)
    requires prefix != [] && prefix[0] == '['
    requires !Contains(rest, prefix) && EndsWith(rest, DirectiveSuffix)
    ensures Trim(prefix + rest) == prefix + rest
    ensures IsDirective(prefix + rest, prefix)
    ensures Payload(prefix + rest, prefix) == Trim(RemoveAll(rest, DirectiveSuffix))
  {
    DirectiveLineTrimmed(prefix, rest);
    DirectiveLineRecognised(prefix, rest);
    DirectiveLinePayload(prefix, rest);
  }

  lemma DirectiveLineTrimmed(prefix: string, rest: string)
    requires prefix != [] && prefix[0] == '['
    requires EndsWith(rest, DirectiveSuffix)
    ensures Trim(prefix + rest) == prefix + rest
  {
    var line := prefix + rest;
    assert line[|line| - 1] == rest[|rest| - 1] == rest[|rest| - 2..][1] == ']';
    BracketedIsTrimmed(line);
  }

  lemma DirectiveLineRecognised(prefix: string, rest: string)
    requires EndsWith(rest, DirectiveSuffix)
    ensures IsDirective(prefix + rest, prefix)
  {
    var line := prefix + rest;
    assert line[|line| - 2..] == rest[|rest| - 2..];
    assert line[..|prefix|] == prefix;
  }

  lemma DirectiveLinePayload(prefix: string, rest: string)
    requires prefix != [] && !Contains(rest, prefix)
    ensures Payload(prefix + rest, prefix) == Trim(RemoveAll(rest, DirectiveSuffix))
  {
    RemoveAllLeading(prefix, rest);
    RemoveAllAbsent(rest, prefix);
  }

  /** A line that starts with '[' and ends with ']' is already trimmed. */
  lemma BracketedIsTrimmed(line: string)
    requires |line| > 0 && line[0] == '[' && line[|line| - 1] == ']'
    ensures Trim(line) == line
  {
    assert '[' !in WhiteSpace && ']' !in WhiteSpace;
    StripUnchanged(line, WhiteSpace);
  }

  /** A directive around a payload free of both markers is recognised and
      reads back as that payload, trimmed. */
  lemma DirectivePayload(prefix: string, p: string)
    requires prefix != [] && prefix[0] == '['
    requires !Contains(p + DirectiveSuffix, prefix) && !Contains(p, DirectiveSuffix)
    ensures Trim(prefix + p + DirectiveSuffix) == prefix + p + DirectiveSuffix
    ensures IsDirective(prefix + p + DirectiveSuffix, prefix)
    ensures Payload(prefix + p + DirectiveSuffix, prefix) == Trim(p)
  {
    DirectivePayloadTrimmed(prefix, p);
    DirectivePayloadRecognised(prefix, p);
    DirectivePayloadRead(prefix, p);
  }

  lemma DirectivePayloadTrimmed(prefix: string, p: string)
    requires prefix != [] && prefix[0] == '['
    ensures Trim(prefix + p + DirectiveSuffix) == prefix + p + DirectiveSuffix
  {
    var rest := p + DirectiveSuffix;
    assert prefix + p + DirectiveSuffix == prefix + rest;
    assert EndsWith(rest, DirectiveSuffix) by {
      assert rest[|rest| - 2..] == DirectiveSuffix;
    }
    DirectiveLineTrimmed(prefix, rest);
  }

  lemma DirectivePayloadRecognised(prefix: string, p: string)
    ensures IsDirective(prefix + p + DirectiveSuffix, prefix)
  {
    var rest := p + DirectiveSuffix;
    assert prefix + p + DirectiveSuffix == prefix + rest;
    assert EndsWith(rest, DirectiveSuffix) by {
      assert rest[|rest| - 2..] == DirectiveSuffix;
    }
    DirectiveLineRecognised(prefix, rest);
  }

  lemma DirectivePayloadRead(prefix: string, p: string)
    requires prefix != []
    requires !Contains(p + DirectiveSuffix, prefix) && !Contains(p, DirectiveSuffix)
    ensures Payload(prefix + p + DirectiveSuffix, prefix) == Trim(p)
  {
    var rest := p + DirectiveSuffix;
    assert prefix + p + DirectiveSuffix == prefix + rest;
    DirectiveLinePayload(prefix, rest);
    RemoveAllTrailing(p, DirectiveSuffix);
  }

  /** A trimmed duration directive is a duration line. */
  lemma ClassifyDuration(line: string)
    requires Trim(line) == line && IsDirective(line, DurationPrefix)
    ensures Classify(line) == DurationLine(Payload(line, DurationPrefix))
  {
  }

  /** No line starts with both directive prefixes. */
  lemma PrefixesExclusive(line: string)
    requires StartsWith(line, SubtitlePrefix)
    ensures !StartsWith(line, DurationPrefix)
  {
    assert SubtitlePrefix[1] == 'S' && DurationPrefix[1] == 'D';
    assert line[..|SubtitlePrefix|][1] == line[1];
    assert line[..|DurationPrefix|][1] == line[1];
  }

  /** A trimmed subtitle directive is a subtitle line. */
  lemma ClassifySubtitle(line: string)
    requires Trim(line) == line && IsDirective(line, SubtitlePrefix)
    ensures Classify(line) == SubtitleLine(Payload(line, SubtitlePrefix))
  {
    PrefixesExclusive(line);
  }

  /** A duration directive written around a marker-free payload reads back as
      that payload, trimmed. */
  lemma DurationDirective(p: string)
    requires !Contains(p + DirectiveSuffix, DurationPrefix) && !Contains(p, DirectiveSuffix)
    ensures Classify(DurationPrefix + p + DirectiveSuffix) == DurationLine(Trim(p))
  {
    DirectivePayload(DurationPrefix, p);
    ClassifyDuration(DurationPrefix + p + DirectiveSuffix);
  }

  /** A subtitle directive written around a marker-free payload reads back as
      that payload, trimmed. */
  lemma SubtitleDirective(p: string)
    requires !Contains(p + DirectiveSuffix, SubtitlePrefix) && !Contains(p, DirectiveSuffix)
    ensures Classify(SubtitlePrefix + p + DirectiveSuffix) == SubtitleLine(Trim(p))
  {
    DirectivePayload(SubtitlePrefix, p);
    ClassifySubtitle(SubtitlePrefix + p + DirectiveSuffix);
  }

  /** Two 32-bit integers joined by ':' convert to minutes * 60 + seconds,
      wrapped to 32 bits as C# int arithmetic does. */
  lemma ParseTimeOfFields(minutes: int, seconds: int)
    requires MinInt32 <= minutes <= MaxInt32 && MinInt32 <= seconds <= MaxInt32
    ensures ParseTimeToSeconds(IntToString(minutes) + ":" + IntToString(seconds))
      == Int(Wrap32(minutes * 60 + seconds))
  {
    SplitRenderedFields(minutes, seconds);
    ParseIntOfIntToString(minutes);
    ParseIntOfIntToString(seconds);
    ParseTimeOfWrappedFields(IntToString(minutes) + ":" + IntToString(seconds),
      IntToString(minutes), IntToString(seconds), minutes, seconds);
  }

  lemma SplitRenderedFields(minutes: int, seconds: int)
    ensures Split(IntToString(minutes) + ":" + IntToString(seconds), ':') == [IntToString(minutes), IntToString(seconds)]
  {
    var m, s := IntToString(minutes), IntToString(seconds);
    assert ':' !in m && ':' !in s;
    assert m + ":" + s == m + [':'] + s;
    SplitTwoFields(m, ':', s);
  }

  /** Two fields that parse convert to their wrapped total. */
  lemma ParseTimeOfWrappedFields(time: string, first: string, second: string, minutes: int, seconds: int)
    requires Split(time, ':') == [first, second]
    requires ParseInt(first) == Int(minutes) && ParseInt(second) == Int(seconds)
    ensures ParseTimeToSeconds(time) == Int(Wrap32(minutes * 60 + seconds))
  {
    ParseTimeOfSplit(time, first, second);
    TimeOfFieldsWrapped(minutes, seconds);
  }

  lemma TimeOfFieldsWrapped(minutes: int, seconds: int)
    ensures TimeOfFields(Int(minutes), Int(seconds)) == Int(Wrap32(minutes * 60 + seconds))
  {
  }

  /** A time that splits into two fields converts as its two parsed fields do. */
  lemma ParseTimeOfSplit(time: string, first: string, second: string)
    requires Split(time, ':') == [first, second]
    ensures ParseTimeToSeconds(time) == TimeOfFields(ParseInt(first), ParseInt(second))
  {
    var timeParts := Split(time, ':');
    assert timeParts[0] == first && timeParts[1] == second;
  }

  /** Fields whose total fits in 32 bits convert without wrapping. */
  lemma TimeOfFieldsInRange(minutes: int, seconds: int)
    requires MinInt32 <= minutes * 60 + seconds <= MaxInt32
    ensures TimeOfFields(Int(minutes), Int(seconds)) == Int(minutes * 60 + seconds)
  {
  }

  /** For the format's MM:SS with a total that fits in 32 bits, the duration is
      exactly minutes * 60 + seconds. */
  lemma ParseTimeOfMinutesSeconds(minutes: nat, seconds: nat)
    requires minutes * 60 + seconds <= MaxInt32
    ensures ParseTimeToSeconds(Decimal(minutes) + ":" + Decimal(seconds)) == Int(minutes * 60 + seconds)
  {
    assert minutes <= MaxInt32 && seconds <= MaxInt32;
    ParseTimeOfFields(minutes, seconds);
    IntToStringOfNat(minutes);
    IntToStringOfNat(seconds);
    assert Wrap32(minutes * 60 + seconds) == minutes * 60 + seconds;
  }

  // ---------------------------------------------------------------------------
  // The MM:SS format and malformed times

  /** MM:SS written as digit runs, leading zeros allowed, converts to
      minutes * 60 + seconds whenever that total fits in 32 bits. */
  lemma ParseTimeOfDigitFields(mm: string, ss: string)
    requires |mm| > 0 && AllDigits(mm) && |ss| > 0 && AllDigits(ss)
    requires DigitsValue(mm) * 60 + DigitsValue(ss) <= MaxInt32
    ensures ParseTimeToSeconds(mm + ":" + ss) == Int(DigitsValue(mm) * 60 + DigitsValue(ss))
  {
    SplitDigitFields(mm, ss);
    ParseIntOfDigits(mm);
    ParseIntOfDigits(ss);
    ParseTimeOfParsedFields(mm + ":" + ss, mm, ss, DigitsValue(mm), DigitsValue(ss));
  }

  lemma SplitDigitFields(mm: string, ss: string)
    requires AllDigits(mm) && AllDigits(ss)
    ensures Split(mm + ":" + ss, ':') == [mm, ss]
  {
    DigitsHaveNoColon(mm);
    DigitsHaveNoColon(ss);
    assert mm + ":" + ss == mm + [':'] + ss;
    SplitTwoFields(mm, ':', ss);
  }

  /** Two fields that parse, with a total that needs no wrapping. */
  lemma ParseTimeOfParsedFields(time: string, first: string, second: string, minutes: int, seconds: int)
    requires Split(time, ':') == [first, second]
    requires ParseInt(first) == Int(minutes) && ParseInt(second) == Int(seconds)
    requires MinInt32 <= minutes * 60 + seconds <= MaxInt32
    ensures ParseTimeToSeconds(time) == Int(minutes * 60 + seconds)
  {
    ParseTimeOfSplit(time, first, second);
    TimeOfFieldsInRange(minutes, seconds);
  }

  lemma DigitsHaveNoColon(t: string)
    requires AllDigits(t)
    ensures ':' !in t
  {
  }

  /** Two fields, one of them not an integer: Int32.Parse throws. */
  lemma ParseTimeNonInteger(first: string, second: string)
    requires ':' !in first && ':' !in second
    requires ParseInt(first).Throws? || ParseInt(second).Throws?
    ensures ParseTimeToSeconds(first + ":" + second) == Throws
  {
    assert first + ":" + second == first + [':'] + second;
    SplitTwoFields(first, ':', second);
    ParseTimeOfSplit(first + ":" + second, first, second);
  }

  /** A time without ':' is one field, the wrong count: it converts to 0. */
  lemma ParseTimeWithoutColon(time: string)
    requires ':' !in time
    ensures ParseTimeToSeconds(time) == Int(0)
  {
    CountOfAbsent(time, ':');
  }

  // ---------------------------------------------------------------------------
  // Plain payloads and a two-line file

  /** A payload without '"' or '[' and without surrounding whitespace is read
      back unchanged from a duration directive. */
  lemma PlainDuration(p: string)
    requires '"' !in p && '[' !in p && p == Trim(p)
    ensures Classify(DurationPrefix + p + DirectiveSuffix) == DurationLine(p)
  {
    NoBracketBeforeSuffix(p);
    NotContainsWithoutHead(p + DirectiveSuffix, DurationPrefix);
    NotContainsWithoutHead(p, DirectiveSuffix);
    DurationDirective(p);
  }

  /** The same for a subtitle directive. */
  lemma PlainSubtitle(p: string)
    requires '"' !in p && '[' !in p && p == Trim(p)
    ensures Classify(SubtitlePrefix + p + DirectiveSuffix) == SubtitleLine(p)
  {
    NoBracketBeforeSuffix(p);
    NotContainsWithoutHead(p + DirectiveSuffix, SubtitlePrefix);
    NotContainsWithoutHead(p, DirectiveSuffix);
    SubtitleDirective(p);
  }

  lemma NoBracketBeforeSuffix(p: string)
    requires '[' !in p
    ensures '[' !in p + DirectiveSuffix
  {
    var t := p + DirectiveSuffix;
    forall k | 0 <= k < |t|
      ensures t[k] != '['
    {
      if k < |p| {
        assert t[k] == p[k];
      } else {
        assert t[k] == DirectiveSuffix[k - |p|];
      }
    }
  }

  /** A file of one duration line and one subtitle line: the subtitle is
      appended with the converted duration, unless the time throws in
      Int32.Parse or the entry is already in the list. */
  lemma LoadDurationThenSubtitle(subtitles: seq<SubtitleEntry>, t: string, p: string)
    requires '"' !in t && '[' !in t && t == Trim(t) && t != ""
    requires '"' !in p && '[' !in p && p == Trim(p) && p != ""
    ensures var d := ParseTimeToSeconds(t);
      Load(subtitles, [DurationPrefix + t + DirectiveSuffix, SubtitlePrefix + p + DirectiveSuffix])
        == if d.Int? && SubtitleEntry(d.value, p) !in subtitles then subtitles + [SubtitleEntry(d.value, p)]
           else subtitles
  {
    var first, second := DurationPrefix + t + DirectiveSuffix, SubtitlePrefix + p + DirectiveSuffix;
    PlainDuration(t);
    PlainSubtitle(p);
    ClassifyAllOfTwo(first, second);
    RunTwoLines(ParserState("", subtitles), t, p);
  }

  lemma RunTwoLines(st: ParserState, t: string, p: string)
    requires t != "" && p != ""
    ensures var d := ParseTimeToSeconds(t);
      Run(st, [DurationLine(t), SubtitleLine(p)]).subtitles
        == if d.Int? && SubtitleEntry(d.value, p) !in st.subtitles then st.subtitles + [SubtitleEntry(d.value, p)]
           else st.subtitles
  {
    var kinds := [DurationLine(t), SubtitleLine(p)];
    var mid := Step(st, DurationLine(t));
    assert kinds[0] == DurationLine(t) && kinds[1..] == [SubtitleLine(p)];
    assert [SubtitleLine(p)][1..] == [];
    assert mid == ParserState(t, st.subtitles);
    assert Run(st, kinds) == Run(mid, [SubtitleLine(p)]);
    assert Run(mid, [SubtitleLine(p)]) == Step(mid, SubtitleLine(p));
    StepEffect(mid, SubtitleLine(p));
  }

  /** Two subtitles, each after its own duration line, are appended in file
      order when both times convert and neither entry is already present. */
  lemma RunTwoSubtitlesInOrder(st: ParserState, t1: string, p1: string, t2: string, p2: string)
    requires t1 != "" && p1 != "" && t2 != "" && p2 != ""
    requires ParseTimeToSeconds(t1).Int? && ParseTimeToSeconds(t2).Int?
    requires SubtitleEntry(ParseTimeToSeconds(t1).value, p1) !in st.subtitles
    requires SubtitleEntry(ParseTimeToSeconds(t2).value, p2) !in st.subtitles + [SubtitleEntry(ParseTimeToSeconds(t1).value, p1)]
    ensures Run(st, [DurationLine(t1), SubtitleLine(p1), DurationLine(t2), SubtitleLine(p2)]).subtitles
      == st.subtitles + [SubtitleEntry(ParseTimeToSeconds(t1).value, p1), SubtitleEntry(ParseTimeToSeconds(t2).value, p2)]
  {
    var first, second := [DurationLine(t1), SubtitleLine(p1)], [DurationLine(t2), SubtitleLine(p2)];
    var e1 := SubtitleEntry(ParseTimeToSeconds(t1).value, p1);
    var e2 := SubtitleEntry(ParseTimeToSeconds(t2).value, p2);
    var mid := Run(st, first);
    RunTwoLines(st, t1, p1);
    assert mid.subtitles == st.subtitles + [e1];
    RunTwoLines(mid, t2, p2);
    assert Run(mid, second).subtitles == st.subtitles + [e1] + [e2];
    assert first + second == [DurationLine(t1), SubtitleLine(p1), DurationLine(t2), SubtitleLine(p2)];
    RunAppend(st, first, second);
    assert st.subtitles + [e1] + [e2] == st.subtitles + [e1, e2];
  }

  /** A file of two duration-subtitle pairs loads its two entries in file
      order, when both times convert and neither entry is already present. */
  lemma LoadTwoSubtitlesInOrder(subtitles: seq<SubtitleEntry>, t1: string, p1: string, t2: string, p2: string)
    requires '"' !in t1 && '[' !in t1 && t1 == Trim(t1) && t1 != ""
    requires '"' !in p1 && '[' !in p1 && p1 == Trim(p1) && p1 != ""
    requires '"' !in t2 && '[' !in t2 && t2 == Trim(t2) && t2 != ""
    requires '"' !in p2 && '[' !in p2 && p2 == Trim(p2) && p2 != ""
    requires ParseTimeToSeconds(t1).Int? && ParseTimeToSeconds(t2).Int?
    requires SubtitleEntry(ParseTimeToSeconds(t1).value, p1) !in subtitles
    requires SubtitleEntry(ParseTimeToSeconds(t2).value, p2) !in subtitles + [SubtitleEntry(ParseTimeToSeconds(t1).value, p1)]
    ensures Load(subtitles, [DurationPrefix + t1 + DirectiveSuffix, SubtitlePrefix + p1 + DirectiveSuffix,
                             DurationPrefix + t2 + DirectiveSuffix, SubtitlePrefix + p2 + DirectiveSuffix])
      == subtitles + [SubtitleEntry(ParseTimeToSeconds(t1).value, p1), SubtitleEntry(ParseTimeToSeconds(t2).value, p2)]
  {
    var lines := [DurationPrefix + t1 + DirectiveSuffix, SubtitlePrefix + p1 + DirectiveSuffix,
                  DurationPrefix + t2 + DirectiveSuffix, SubtitlePrefix + p2 + DirectiveSuffix];
    PlainDuration(t1);
    PlainSubtitle(p1);
    PlainDuration(t2);
    PlainSubtitle(p2);
    ClassifyAllOfFour(lines[0], lines[1], lines[2], lines[3]);
    RunTwoSubtitlesInOrder(ParserState("", subtitles), t1, p1, t2, p2);
  }

  /** Classifying two lines, one by one. */
  lemma ClassifyAllOfTwo(l1: string, l2: string)
    ensures ClassifyAll([l1, l2]) == [Classify(l1), Classify(l2)]
  {
    MapSeqOfTwo(Classify, l1, l2);
  }

  /** Classifying four lines, one by one. */
  lemma ClassifyAllOfFour(l1: string, l2: string, l3: string, l4: string)
    ensures ClassifyAll([l1, l2, l3, l4]) == [Classify(l1), Classify(l2), Classify(l3), Classify(l4)]
  {
    MapSeqOfFour(Classify, l1, l2, l3, l4);
  }

  /** A subtitle whose text itself holds the closing marker: Replace deletes
      that inner occurrence too, so the payload is the text without it. */
  lemma SubtitleWithInnerMarker(a: string, b: string)
    requires '"' !in a && '[' !in a && '"' !in b && '[' !in b
    ensures Classify(SubtitlePrefix + a + DirectiveSuffix + b + DirectiveSuffix) == SubtitleLine(Trim(a + b))
  {
    var rest := a + DirectiveSuffix + b + DirectiveSuffix;
    assert SubtitlePrefix + a + DirectiveSuffix + b + DirectiveSuffix == SubtitlePrefix + rest;
    assert '[' !in rest by {
      NoBracketBeforeSuffix(a);
      NoBracketBeforeSuffix(b);
      assert rest == (a + DirectiveSuffix) + (b + DirectiveSuffix);
    }
    assert EndsWith(rest, DirectiveSuffix) by {
      assert rest[|rest| - 2..] == DirectiveSuffix;
    }
    NotContainsWithoutHead(rest, SubtitlePrefix);
    NotContainsWithoutHead(a, DirectiveSuffix);
    NotContainsWithoutHead(b, DirectiveSuffix);
    RemoveAllTwoOccurrences(a, DirectiveSuffix, b);
    DirectiveLine(SubtitlePrefix, rest);
    ClassifySubtitle(SubtitlePrefix + rest);
  }
}
