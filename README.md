# SubtitleManager in Dafny

A model of the Unity component `SubtitleManager` (`Scripts/SubtitleManager.cs`).
The component has two parts:

- **A subtitle file loader.** `LoadSubtitlesFromFile` reads lines of two kinds, `[DURATION="MM:SS"]` and
  `[SUBTITLE="text"]`. It stages the most recent duration payload. At each subtitle line it converts the staged time
  with `ParseTimeToSeconds` and appends the `(duration, text)` entry to the persistent list, unless `SubtitleExists`
  finds it already there.
- **A per-frame playback state machine.** `Update`, `DisplaySubtitle` and `HideSubtitle` walk through the list. They
  show each subtitle until its deadline, then hide it and show the next one.

The project has four modules:

- `Text` (`text.dfy`) models the .NET string operations the component relies on, together with their round trips:
  - `String.Trim`
  - ordinal `StartsWith`/`EndsWith`
  - `Replace(pat, "")`
  - `Split(':')`
  - `Int32.Parse`
- `SubtitleParser` (`parser.dfy`) specifies the loader as functions over the file's lines:
  - `Classify` says what one trimmed line is.
  - `Step` is one iteration of the `foreach`.
  - `Run` is the remaining loop.
  - `Load` is a whole call.
  - It also proves what the loader promises: the list only grows, there are no duplicates, loading again adds nothing,
    durations come from the staged time, and so on.
- `Playback` (`playback.dfy`) specifies one `Update` frame as `Tick` on a `PlaybackState`, which holds the index, the
  deadline and the label. It proves the tick's behaviour and that no subtitle is skipped over many frames.
- `Manager` (`manager.dfy`) contains the class `SubtitleManager`, with the component's fields. Its methods change those
  fields in place, and each method is proved equal to the matching specification function. `Update` matches `Tick`,
  `LoadSubtitlesFromFile` matches `Load`, and `SubtitleExists` matches membership in the list.

The label (a `TMP_Text`) is modelled by two fields: `labelActive` (its game object's active flag) and `labelText`.
Durations and times are integers. The clock `Time.timeSinceLevelLoad` is the parameter `now`, and it is the same value
throughout one frame. The file's lines are a parameter.

## Model

| member | source | states |
|---|---|---|
| Text.Strip | Scripts/SubtitleManager.cs:78 | trimming leaves a string that neither starts nor ends with a character of the set |
| Text.StripKeepsSlice | Scripts/SubtitleManager.cs:78 | trimming keeps one contiguous slice of the line; everything removed before and after it is whitespace |
| Text.StripIdempotent | Scripts/SubtitleManager.cs:143-144 | trimming a trimmed string changes nothing: String.Trim is idempotent, and int.Parse's whitespace stripping relies on it |
| Text.StripUnchanged | Scripts/SubtitleManager.cs:78 | a string without whitespace at either end is left as it is |
| Text.Trim | Scripts/SubtitleManager.cs:78 | String.Trim(): Strip with the characters for which Char.IsWhiteSpace holds; its properties are those of Strip above |
| Text.TrimStart | Scripts/SubtitleManager.cs:78 | the result is a suffix of the input, and every dropped character is whitespace |
| Text.TrimEnd | Scripts/SubtitleManager.cs:78 | the result is a prefix of the input, and every dropped character is whitespace |
| Text.StartsWith | Scripts/SubtitleManager.cs:80 | ordinal StartsWith: the line is at least as long as the prefix and begins with it |
| Text.EndsWith | Scripts/SubtitleManager.cs:80 | ordinal EndsWith: the line is at least as long as the suffix and ends with it |
| Text.NotContainsWithoutHead | Scripts/SubtitleManager.cs:84 | a marker whose first character does not occur in the text does not occur |
| Text.RemoveAll | Scripts/SubtitleManager.cs:84 | Replace(pat, ""): never lengthens the string; scans left to right and deletes every non-overlapping occurrence |
| Text.RemoveAllAbsent | Scripts/SubtitleManager.cs:84 | Replace with "" leaves a string without the marker unchanged |
| Text.RemoveAllLeading | Scripts/SubtitleManager.cs:84 | Replace with "" deletes a marker at the front, whatever follows |
| Text.RemoveAllTrailing | Scripts/SubtitleManager.cs:84 | Replace with "" deletes a two-character closing marker appended to a string free of it, and nothing else |
| Text.RemoveAllMiddle | Scripts/SubtitleManager.cs:84 | Replace with "" deletes an occurrence in the middle and carries on past it: a marker-free head is kept, and the tail is processed in turn |
| Text.RemoveAllTwoOccurrences | Scripts/SubtitleManager.cs:95 | Replace with "" deletes every occurrence, not only the first: a + pat + b + pat becomes a + b when pat is a two-character marker such as the closing one and a and b are free of it |
| Text.CountOfAbsent | Scripts/SubtitleManager.cs:140 | a string without ':' has no ':' to count |
| Text.Split | Scripts/SubtitleManager.cs:140 | Split gives one field more than there are separators; no field holds the separator; joining the fields gives the input back |
| Text.SplitWithoutSeparator | Scripts/SubtitleManager.cs:140 | a string without ':' splits into itself alone |
| Text.SplitAfterField | Scripts/SubtitleManager.cs:140 | a field followed by ':' splits off as the first field |
| Text.SplitTwoFields | Scripts/SubtitleManager.cs:140-141 | two ':'-free fields joined by ':' split back into exactly those two |
| Text.SplitJoin | Scripts/SubtitleManager.cs:140 | Split inverts Join when no field holds the separator |
| Text.Decimal | Scripts/SubtitleManager.cs:143-144 | the decimal rendering of a number is a non-empty run of digits |
| Text.IntToString | Scripts/SubtitleManager.cs:143-144 | the rendering of an integer is digits with an optional leading '-' |
| Text.IntToStringOfNat | Scripts/SubtitleManager.cs:143-144 | a non-negative integer renders without a sign |
| Text.ParseInt | Scripts/SubtitleManager.cs:143-144 | int.Parse yields only 32-bit values, and throws otherwise |
| Text.ParseSignedDigits | Scripts/SubtitleManager.cs:143-144 | once whitespace is gone, int.Parse yields only 32-bit values |
| Text.DigitsValueOfDecimal | Scripts/SubtitleManager.cs:143-144 | the value of a number's decimal digits is that number |
| Text.ParseIntOfIntToString | Scripts/SubtitleManager.cs:143-144 | int.Parse reads every 32-bit integer back from its rendering |
| Text.ParseSignedDigitsOfIntToString | Scripts/SubtitleManager.cs:143-144 | the same round trip, once the surrounding whitespace is gone |
| Text.ParseIntOfDigits | Scripts/SubtitleManager.cs:143-144 | a run of digits, leading zeros allowed, parses as its value when that fits in 32 bits |
| Text.DigitIsNotNumberWhiteSpace | Scripts/SubtitleManager.cs:143-144 | int.Parse never skips a digit as whitespace |
| Text.ParseUnsignedDigits | Scripts/SubtitleManager.cs:143-144 | an unsigned run of digits parses as its value when that fits |
| Text.ParseIntIgnoresNumberWhiteSpace | Scripts/SubtitleManager.cs:143-144 | whitespace around a field does not change what int.Parse yields |
| SubtitleParser.Wrap32 | Scripts/SubtitleManager.cs:145 | C# int arithmetic wraps into the 32-bit range, differs from the exact value by a multiple of 2^32, and leaves in-range values alone |
| SubtitleParser.ParseTimeToSeconds | Scripts/SubtitleManager.cs:138-152 | the result is a 32-bit value; any field count other than two gives 0; only a two-field time can throw |
| SubtitleParser.TimeOfFields | Scripts/SubtitleManager.cs:143-145 | the conversion succeeds exactly when both fields parse, and gives a 32-bit value |
| SubtitleParser.Candidate | Scripts/SubtitleManager.cs:97-103 | a subtitle line proposes an entry exactly when a duration is staged, its text is non-empty and the time does not throw; the entry is (converted time, text) |
| SubtitleParser.IsDirective | Scripts/SubtitleManager.cs:80 | a trimmed line is a directive when it starts with the prefix and ends with the closing marker, both compared ordinally |
| SubtitleParser.Payload | Scripts/SubtitleManager.cs:84 | the payload of a directive: every occurrence of the prefix is deleted, then every occurrence of the closing marker, then the rest is trimmed |
| SubtitleParser.Classify | Scripts/SubtitleManager.cs:78-120 | a line is trimmed and then read as a duration directive first, a subtitle directive second, otherwise as unrecognised when non-empty, and as blank when empty |
| SubtitleParser.ClassifyAll | Scripts/SubtitleManager.cs:76-78 | one classification per line |
| SubtitleParser.ClassifyAllAt | Scripts/SubtitleManager.cs:76-78 | the i-th classification is that of the i-th line, in file order |
| SubtitleParser.ClassifyAllCons | Scripts/SubtitleManager.cs:76 | the first line is processed first, then the rest |
| Text.MapSeqAppend | Scripts/SubtitleManager.cs:76 | mapping a function (here Classify) over two runs of lines joined together gives the two mapped runs joined together |
| SubtitleParser.Step | Scripts/SubtitleManager.cs:80-120 | one iteration: a duration line stages its payload, a subtitle line appends its candidate unless it is already present, other lines change nothing (StepEffect and StepAppendsOnly state this) |
| SubtitleParser.Run | Scripts/SubtitleManager.cs:76 | the foreach: the lines are processed one at a time, first to last |
| SubtitleParser.Load | Scripts/SubtitleManager.cs:70-124 | a call starts with nothing staged and the list as it was; its result is the list after the loop |
| SubtitleParser.StepEffect | Scripts/SubtitleManager.cs:80-120 | one line changes the staged duration only when it is a duration line, and changes the list only by appending its new candidate |
| SubtitleParser.LastDurationAfterFirst | Scripts/SubtitleManager.cs:84 | the last duration line of a sequence, seen from the front: the first line's effect, then the rest |
| SubtitleParser.RunStagesLastDuration | Scripts/SubtitleManager.cs:73-84 | the staged duration is the payload of the most recent duration line; subtitle, unrecognised and blank lines leave it alone |
| SubtitleParser.AppendsOnlyTrans | Scripts/SubtitleManager.cs:103 | appending twice is appending |
| SubtitleParser.StepAppendsOnly | Scripts/SubtitleManager.cs:97-103 | one line appends at most one entry, with non-empty text, that was not in the list |
| SubtitleParser.RunAppendsOnly | Scripts/SubtitleManager.cs:76-121 | over many lines the old list stays a prefix, and each appended entry has non-empty text and occurs nowhere earlier |
| SubtitleParser.LoadAppendsOnly | Scripts/SubtitleManager.cs:70-124 | a whole call keeps the old list as a prefix and appends only new entries with non-empty text |
| SubtitleParser.LoadKeepsNoDuplicates | Scripts/SubtitleManager.cs:101-103 | a list without duplicates has none after a call |
| SubtitleParser.RunEntryOrigin | Scripts/SubtitleManager.cs:91-103 | each appended entry is the candidate of one subtitle line, converted with the duration staged just before it |
| SubtitleParser.LoadAppendedEntries | Scripts/SubtitleManager.cs:95-103 | each entry a call appends has the text of one of its subtitle lines, and its duration is ParseTimeToSeconds of the non-empty duration staged just before that line |
| SubtitleParser.RunAppend | Scripts/SubtitleManager.cs:76 | the loop over two runs of lines is the loop over the first, then over the second from the state the first left |
| SubtitleParser.RunEntryPosition | Scripts/SubtitleManager.cs:76-103 | entries are appended in the order of their lines: the line that appends entry k finds exactly the first k entries in the list and leaves exactly the first k + 1 |
| SubtitleParser.CoversGrows | Scripts/SubtitleManager.cs:101 | adding entries to a list keeps every candidate present in it |
| SubtitleParser.CoveredRunAddsNothing | Scripts/SubtitleManager.cs:101-109 | lines whose candidates are all present change nothing |
| SubtitleParser.RunCoversItsLines | Scripts/SubtitleManager.cs:101-103 | after the loop, every candidate of its lines is in the list |
| SubtitleParser.LoadAgainAddsNothing | Scripts/SubtitleManager.cs:101-109 | loading lines into any list that already holds what they loaded leaves that list unchanged |
| SubtitleParser.LoadIdempotent | Scripts/SubtitleManager.cs:101-109 | loading the same lines twice gives the same list as loading them once |
| SubtitleParser.LoadAfterLoadDeduplicates | Scripts/SubtitleManager.cs:18 | deduplication works across calls: loading a file again after another file adds nothing |
| SubtitleParser.LoadStartsUnstaged | Scripts/SubtitleManager.cs:73 | the staged duration is local to a call: a subtitle line that opens a call adds nothing, whatever earlier calls staged |
| SubtitleParser.LoadSkipsUnstagedPrefix | Scripts/SubtitleManager.cs:73-120 | every line of a call before its first duration line adds nothing: the call loads as if those lines were absent |
| SubtitleParser.RunSkipsUnstagedPrefix | Scripts/SubtitleManager.cs:76-120 | with nothing staged, a run of lines none of which is a duration line leaves the state unchanged |
| SubtitleParser.RunStartsUnstaged | Scripts/SubtitleManager.cs:73 | with nothing staged, a subtitle line is skipped |
| SubtitleParser.BracketedIsTrimmed | Scripts/SubtitleManager.cs:78 | a line that starts with '[' and ends with ']' is already trimmed |
| SubtitleParser.DirectiveLine | Scripts/SubtitleManager.cs:78-95 | a line made of a prefix starting with '[' and a rest ending with the closing marker, without the prefix inside it, is already trimmed, is recognised as a directive, and its payload is the rest with every closing marker deleted, trimmed |
| SubtitleParser.DirectiveLineTrimmed | Scripts/SubtitleManager.cs:78 | such a line is left unchanged by Trim |
| SubtitleParser.DirectiveLineRecognised | Scripts/SubtitleManager.cs:80 | such a line passes both the StartsWith and the EndsWith test |
| SubtitleParser.DirectiveLinePayload | Scripts/SubtitleManager.cs:84 | deleting the prefix, which occurs only at the front, leaves the rest; its closing markers are then deleted |
| SubtitleParser.DirectivePayload | Scripts/SubtitleManager.cs:80-84 | a directive around a marker-free payload is recognised, and reads back as that payload, trimmed |
| SubtitleParser.DirectivePayloadTrimmed | Scripts/SubtitleManager.cs:78 | a directive around any payload is left unchanged by Trim |
| SubtitleParser.DirectivePayloadRecognised | Scripts/SubtitleManager.cs:80 | a directive around any payload is recognised by its prefix and closing marker |
| SubtitleParser.DirectivePayloadRead | Scripts/SubtitleManager.cs:84 | a directive around a marker-free payload reads back as that payload, trimmed |
| SubtitleParser.ClassifyDuration | Scripts/SubtitleManager.cs:80-84 | a trimmed duration directive is a duration line with its payload |
| SubtitleParser.PrefixesExclusive | Scripts/SubtitleManager.cs:80-91 | no line starts with both directive prefixes |
| SubtitleParser.ClassifySubtitle | Scripts/SubtitleManager.cs:91-95 | a trimmed subtitle directive is a subtitle line with its payload |
| SubtitleParser.DurationDirective | Scripts/SubtitleManager.cs:80-84 | writing a duration directive and loading it gives the payload back, trimmed |
| SubtitleParser.SubtitleDirective | Scripts/SubtitleManager.cs:91-95 | writing a subtitle directive and loading it gives the payload back, trimmed |
| SubtitleParser.ParseTimeOfFields | Scripts/SubtitleManager.cs:140-145 | two 32-bit integers written as "M:S" convert to M * 60 + S, wrapped to 32 bits |
| SubtitleParser.SplitRenderedFields | Scripts/SubtitleManager.cs:140 | "M:S" splits into the two renderings |
| SubtitleParser.ParseTimeOfWrappedFields | Scripts/SubtitleManager.cs:140-145 | two fields that parse convert to their total, wrapped to 32 bits |
| SubtitleParser.TimeOfFieldsWrapped | Scripts/SubtitleManager.cs:145 | two parsed fields combine as minutes * 60 + seconds in 32-bit arithmetic |
| SubtitleParser.ParseTimeOfSplit | Scripts/SubtitleManager.cs:140-145 | a two-field time converts as its two parsed fields do |
| SubtitleParser.TimeOfFieldsInRange | Scripts/SubtitleManager.cs:145 | a total that fits in 32 bits is not wrapped |
| SubtitleParser.ParseTimeOfMinutesSeconds | Scripts/SubtitleManager.cs:138-146 | MM:SS converts to exactly minutes * 60 + seconds when that fits |
| SubtitleParser.ParseTimeOfDigitFields | Scripts/SubtitleManager.cs:138-146 | digit runs MM:SS, leading zeros allowed, convert to minutes * 60 + seconds when that fits |
| SubtitleParser.SplitDigitFields | Scripts/SubtitleManager.cs:140 | two digit runs joined by ':' split back into the two |
| SubtitleParser.ParseTimeOfParsedFields | Scripts/SubtitleManager.cs:140-145 | two fields that parse, with a total that fits, convert without wrapping |
| SubtitleParser.DigitsHaveNoColon | Scripts/SubtitleManager.cs:140 | a digit run holds no ':' |
| SubtitleParser.ParseTimeNonInteger | Scripts/SubtitleManager.cs:143-144 | two fields, one of them not an integer: int.Parse throws (and the handler at lines 112-115 drops the line) |
| SubtitleParser.ParseTimeWithoutColon | Scripts/SubtitleManager.cs:147-151 | a time without ':' has the wrong field count and converts to 0 |
| SubtitleParser.PlainDuration | Scripts/SubtitleManager.cs:80-84 | a payload without '"', '[' or surrounding whitespace reads back unchanged from a duration directive |
| SubtitleParser.PlainSubtitle | Scripts/SubtitleManager.cs:91-95 | the same for a subtitle directive |
| SubtitleParser.NoBracketBeforeSuffix | Scripts/SubtitleManager.cs:80 | the closing marker adds no '[' |
| SubtitleParser.LoadDurationThenSubtitle | Scripts/SubtitleManager.cs:70-124 | loading a duration line and then a subtitle line appends the converted entry, unless the time throws or the entry is already present |
| SubtitleParser.RunTwoLines | Scripts/SubtitleManager.cs:76-116 | the loop over a duration line followed by a subtitle line |
| SubtitleParser.RunTwoSubtitlesInOrder | Scripts/SubtitleManager.cs:76-103 | two duration-subtitle pairs append their two entries in line order, when both times convert and neither entry is already present |
| SubtitleParser.LoadTwoSubtitlesInOrder | Scripts/SubtitleManager.cs:70-124 | a file of two duration-subtitle pairs loads as the list followed by its first entry, then its second, when both times convert and neither entry is already present |
| SubtitleParser.SubtitleWithInnerMarker | Scripts/SubtitleManager.cs:91-95 | a subtitle line whose text holds a closing marker in the middle is still a subtitle line; both markers are deleted and the two halves are joined |
| Playback.Initial | Scripts/SubtitleManager.cs:20-25 | the initial state: no subtitle yet, deadline 0, label hidden |
| Playback.Show | Scripts/SubtitleManager.cs:58-63 | DisplaySubtitle: the label shows the text, is active, and the deadline becomes now plus the duration; the index is unchanged |
| Playback.Hide | Scripts/SubtitleManager.cs:65-68 | HideSubtitle: only the label's active flag changes, to false |
| Playback.Tick | Scripts/SubtitleManager.cs:28-56 | a frame never moves the index back, and advances it by at most one |
| Playback.DisabledTickHides | Scripts/SubtitleManager.cs:52-55 | with subtitles off, a frame only hides the label; the index and the deadline are unchanged |
| Playback.TickBeforeDeadline | Scripts/SubtitleManager.cs:38-44 | before the deadline an enabled frame changes nothing |
| Playback.TickAdvances | Scripts/SubtitleManager.cs:36-63 | after the deadline, when there is a next subtitle, the index moves on by one and the label shows that subtitle until now plus its duration |
| Playback.TickExhausted | Scripts/SubtitleManager.cs:36-44 | after the last deadline each frame hides the label, and the index stays on the last subtitle |
| Playback.TickIndexStep | Scripts/SubtitleManager.cs:44-48 | the index moves on only with subtitles on and the deadline passed, and then the label shows the new subtitle until now plus its duration |
| Playback.TickKeepsValid | Scripts/SubtitleManager.cs:34-49 | the index stays in [-1, Count-1] (so it is -1 for an empty list), and a visible label shows the current subtitle |
| Playback.AppendKeepsValid | Scripts/SubtitleManager.cs:103 | loading more subtitles keeps the playback state valid |
| Playback.FirstTick | Scripts/SubtitleManager.cs:20-48 | from the initial state, the first enabled frame at a time no earlier than 0 shows entry 0 (or leaves the state alone for an empty list) |
| Playback.ReenableDoesNotReshow | Scripts/SubtitleManager.cs:38-55 | switching subtitles off and on before the deadline does not bring the hidden subtitle back |
| Playback.ResumeAfterAppend | Scripts/SubtitleManager.cs:34-44 | after the list ran out, subtitles loaded later play from the first new one |
| Playback.RunTicks | Scripts/SubtitleManager.cs:28-56 | over n frames the index never moves back, and grows by at most n |
| Playback.RunTicksKeepsValid | Scripts/SubtitleManager.cs:28-56 | every sequence of frames keeps the state valid |
| Playback.NoSubtitleSkipped | Scripts/SubtitleManager.cs:44-48 | every index playback passes through was shown with its own text, by an enabled frame at or after the previous deadline |
| Playback.RunTicksPrefix | Scripts/SubtitleManager.cs:28 | the first f + 1 frames are one frame, then the next f |
| Manager.SubtitleManager.constructor | Scripts/SubtitleManager.cs:16-21 | the field initialisers: subtitles off, empty list, deadline 0, index -1 |
| Manager.SubtitleManager.Start | Scripts/SubtitleManager.cs:23-26 | Start hides the label and changes nothing else; on a fresh object that makes it valid |
| Manager.SubtitleManager.Update | Scripts/SubtitleManager.cs:28-56 | the new state is Tick of the old one; the switch and the list are unchanged; a valid object stays valid, and an invalid one (a scene-active label, a custom DisplaySubtitle) is still accepted |
| Manager.SubtitleManager.DisplaySubtitle | Scripts/SubtitleManager.cs:58-63 | sets the label's text, activates it, and sets the deadline to now plus the duration |
| Manager.SubtitleManager.HideSubtitle | Scripts/SubtitleManager.cs:65-68 | deactivates the label and changes nothing else |
| Manager.SubtitleManager.LoadSubtitlesFromFile | Scripts/SubtitleManager.cs:70-124 | the new list is Load of the old list and the lines; playback fields are unchanged; a valid object stays valid, and any object is accepted |
| Manager.SubtitleManager.ReadLine | Scripts/SubtitleManager.cs:77-120 | one iteration of the foreach is Step on the classified line; a valid object stays valid |
| Manager.SubtitleManager.SubtitleExists | Scripts/SubtitleManager.cs:126-136 | true exactly when an entry with this duration and this text is in the list |
| Manager.LoopStep | Scripts/SubtitleManager.cs:76 | the loop consumes one classified line per iteration |

## Left out

- `File.ReadAllLines` (line 72) is file I/O. `LoadSubtitlesFromFile` takes the lines instead of a path.
- The `Debug.Log`, `LogWarning` and `LogError` calls only write diagnostics, so they are omitted.
- The `MonoBehaviour` lifecycle and frame scheduling are outside the model. `Time.timeSinceLevelLoad` is the parameter `now` of `Update` and `DisplaySubtitle`.
- `TMP_Text` rendering is omitted. The label is its active flag and its text, and its text before `Start` is a constructor parameter.
- `float` semantics are not modelled:
  - `SubtitleEntry.duration`, `displayEndTime` and the clock are integers.
  - The rounding of a converted duration above 2^24 when it is stored as `float` is not modelled.
  - Neither is the float equality in `SubtitleExists`.
- `StartsWith` and `EndsWith` are compared ordinally. The C# one-argument overloads are culture-sensitive: under culture rules ignorable characters are skipped and a base letter followed by a combining mark does not start with the bare letter, so lines holding such characters can be classified differently.
- Text.ParseInt: int.Parse is modelled as optional number whitespace (U+0009 to U+000D, U+0020), an optional sign and ASCII digits, with the 32-bit range check. Culture-specific signs, trailing NUL characters and other number styles are not modelled.
- Text.Trim covers the fixed set of characters for which `Char.IsWhiteSpace` holds. Unicode normalisation does not arise.
- `SubtitleEntry` is a reference type in C#, but the list holds it as a value. Nothing in the component aliases entries, and `SubtitleExists` compares their fields.
- The catch at lines 86-89 is unreachable, because `Replace` and `Trim` on a non-null line do not throw. The catch at lines 112-115 is modelled as the `Throws` result of the time conversion, which drops the line. A `null` label, a `null` list and an out-of-memory `Add` are not modelled.
- The local `subtitleText` (line 74) keeps its value between iterations. Every use follows a fresh assignment, so the model makes it local to the subtitle branch.
- Manager.SubtitleManager.ReadLine is the body of the `foreach` at lines 77-120, given a method of its own. The loop in `LoadSubtitlesFromFile` calls it once per line.

Where the code decides something a plain reading of the format leaves open, the model follows the code:

- The index never reaches `Count` (line 44). After the last subtitle expires, each frame hides the label again.
- A duration line whose payload is malformed is still staged. The conversion happens at each subtitle line (line 99), so a time with the wrong field count gives duration 0 and the entry is added.
- Switching subtitles off leaves the deadline untouched, so switching them back on does not re-show the hidden subtitle.
- The first subtitle appears at the first enabled frame at a time no earlier than the initial deadline, 0.
