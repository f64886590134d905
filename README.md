# uqmwallpaper, modelled in Dafny

This project models the core of the uqmwallpaper Android wallpapers. They
replay the ambient animations of the alien communication screens of The Ur-Quan
Masters, and the model covers three parts of that program:

- **The scheduler** (`Animation.java`, module `AmbientAnimation`).
  - The object holds one track per ambient-animation descriptor, a shared
    `ActiveMask`, the clock of the last call and `next_frame_delay`.
  - Each call to `getFrame` visits the tracks in index order. A track that is
    still waiting counts down. A due track that excludes a currently active
    track waits a fresh restart rate. Any other due track stamps its current
    frame, draws a frame rate, and moves on by its policy: ColorXform, Yoyo,
    Circular, Random or none.
  - The call ends by clamping `next_frame_delay` to at least `FRAME_RATE`.
  - The class `AmbientAnimation.Animation` keeps the source's fields. Its
    methods are proved against the function `Tick`, which describes one call
    as a fold of `StepTrack` over the tracks. The properties of one call are
    lemmas about `Tick` and `Run`.
- **The content loaders**: both versions of `Content.java`, in modules
  `LiveContent` and `LegacyContent`, which share module `Catalog`.
  - A loader lists the `.ani` manifests of a content pack and picks the first
    one that lies in a directory named after one of the race's aliases.
  - It splits that manifest into lines and builds one sprite per line: the
    image file, its hotspot and its decoded pixels.
  - A failure becomes an IOException. The live version always wraps it. The
    legacy version rethrows IOExceptions unchanged.
  - The legacy stub constructor only checks that a pack holds any manifest.
  - The Java library calls these rely on are written out in module
    `JavaText`: `indexOf`, `contains`, `trim`, `split`, `Integer.parseInt`
    and `File.getParent`.
- **The resource generator** (`tools/mkresources.py`, module `Resources`).
  - For every descriptor with animations it produces one resource file, named
    after the race and the descriptor's hi-res suffix.
  - The file holds the race's content-directory variants, one integer array
    per animation tuple, and the lookup table the scheduler reads: content
    first, then the animations from last to first.

The clock and the random generator are inputs. `getFrame` receives `now`. The
k-th call to `Random.nextInt(bound)` returns `rng(k) % bound` for a fixed
stream `rng`. Image decoding is a function parameter. An opened zip file is a
sequence of named byte blobs.

Where the written description of the system and its code differ, the model
follows the code:

- **Manifest selection.**
  - The manifests form the outer loop and the aliases the inner one. The
    first manifest in archive order that matches any alias wins; an earlier
    alias does not take priority.
  - An entry that is missing makes `getEntry` return null, which shows up as a
    NullPointerException rather than a dedicated error. The new loader wraps
    it; the legacy loader wraps it too, because it is not an IOException.
- **Manifest lines.** Only `field[0]`, `field[3]` and `field[4]` of
  `split("\\s+", 5)` are read, so a line with fewer than five fields is a
  runtime exception, which the loaders turn into an IOException.
- **Rates.**
  - `randomFrameRate` and `randomRestartRate` are at least 1 only when the
    base rate is non-negative.
  - A negative span other than -1 follows Java's `%`. A span of -1 divides by
    zero.
- **Frame counts.** The code does not reject `NumFrames = 0`. A Random track
  would then throw in `nextInt(0)`. A Yoyo, Circular or colour-transform
  track, or one with no policy, stamps frames outside its stretch without
  throwing. The model states what the scheduler needs
  as `WellFormed` and proves that the constructor yields a valid object
  exactly when every descriptor is well formed.
- **Alarms.** Alarms stay non-negative only when the base rates are
  non-negative (`RunAlarms`).

## Model

Paths are relative to the repository root. Paths abbreviated in this table:
- `Animation.java` is `UQMLiveWallpaper/src/main/java/net/submedia/android/uqmlivewallpaper/Animation.java`.
- The two `Content.java` files are written out in full.

| member | source | states |
|---|---|---|
| AmbientAnimation.PolicyOf | UQMLiveWallpaper/src/main/java/net/submedia/android/uqmlivewallpaper/Animation.java:154-183 | a track's policy is the first flag set in the order ColorXform, Yoyo, Circular, Random; with none of them set the track has no policy |
| AmbientAnimation.DescriptorOf | UQMLiveWallpaper/src/main/java/net/submedia/android/uqmlivewallpaper/Animation.java:231-239 | Frame(int[]) reads start, frame count and the four rates from elements 0, 1, 3, 4, 5, 6 unchanged, the flags as the low byte of element 2 and the block mask as the low 32 bits of element 7 |
| AmbientAnimation.Draw | UQMLiveWallpaper/src/main/java/net/submedia/android/uqmlivewallpaper/Animation.java:248-254 | `nextInt(bound)` yields a value in [0, bound) |
| AmbientAnimation.JavaRem | UQMLiveWallpaper/src/main/java/net/submedia/android/uqmlivewallpaper/Animation.java:249 | Java's `%` on a non-negative draw lies in [0, abs(divisor)) whatever the divisor's sign |
| AmbientAnimation.Rate | UQMLiveWallpaper/src/main/java/net/submedia/android/uqmlivewallpaper/Animation.java:248-254 | a rate lies in [1+base, 1+base+span] for span >= 0, is exactly 1+base for span 0, and lies in [1+base, base-span-1] for a negative span |
| AmbientAnimation.RatesPositive | UQMLiveWallpaper/src/main/java/net/submedia/android/uqmlivewallpaper/Animation.java:248-254 | with non-negative base rates both rates are at least 1, also when the span is 0 |
| AmbientAnimation.NewTrackSpec | UQMLiveWallpaper/src/main/java/net/submedia/android/uqmlivewallpaper/Animation.java:241-244 | a new track is valid, starts at its first frame going up, and waits a restart rate in [1+base, 1+base+span] |
| AmbientAnimation.YoyoCycle | UQMLiveWallpaper/src/main/java/net/submedia/android/uqmlivewallpaper/Animation.java:157-172 | from its first frame a Yoyo track visits first..last going up, then last..first going down (the last frame twice), and only the move below the first frame ends the cycle, after 2n moves |
| AmbientAnimation.CircularCycle | UQMLiveWallpaper/src/main/java/net/submedia/android/uqmlivewallpaper/Animation.java:173-179 | a Circular track visits first..last and its n-th move wraps to the first frame, ending the cycle |
| AmbientAnimation.YoyoRising | UQMLiveWallpaper/src/main/java/net/submedia/android/uqmlivewallpaper/Animation.java:158-163 | the first n-1 Yoyo moves climb one frame at a time |
| AmbientAnimation.YoyoFalling | UQMLiveWallpaper/src/main/java/net/submedia/android/uqmlivewallpaper/Animation.java:164-171 | moves n to 2n-1 repeat the last frame and then descend one frame at a time |
| AmbientAnimation.CircularRising | UQMLiveWallpaper/src/main/java/net/submedia/android/uqmlivewallpaper/Animation.java:174-175 | before the wrap a Circular track climbs one frame per move |
| AmbientAnimation.Lower | UQMLiveWallpaper/src/main/java/net/submedia/android/uqmlivewallpaper/Animation.java:132-133 | an offer lowers next_frame_delay to the smaller of the two, never raising it |
| AmbientAnimation.Clamp | UQMLiveWallpaper/src/main/java/net/submedia/android/uqmlivewallpaper/Animation.java:188-189 | the final delay is at least FRAME_RATE, and is either FRAME_RATE or the accumulated delay; a real accumulated delay of at least FRAME_RATE is kept unchanged |
| AmbientAnimation.Advance | UQMLiveWallpaper/src/main/java/net/submedia/android/uqmlivewallpaper/Animation.java:152-183 | the policy move keeps the track valid and its descriptor, clears the track's bit exactly when the move ends the cycle, and draws at most one random value |
| AmbientAnimation.TakeTurn | UQMLiveWallpaper/src/main/java/net/submedia/android/uqmlivewallpaper/Animation.java:126-185 | one track's turn keeps its frame inside its own stretch of the content pack |
| AmbientAnimation.StepTrack | UQMLiveWallpaper/src/main/java/net/submedia/android/uqmlivewallpaper/Animation.java:125-186 | one turn keeps every track's frame inside its stretch and keeps the number of tracks |
| AmbientAnimation.Run | UQMLiveWallpaper/src/main/java/net/submedia/android/uqmlivewallpaper/Animation.java:125-186 | any prefix of the loop keeps every track's frame inside its stretch |
| AmbientAnimation.Tick | UQMLiveWallpaper/src/main/java/net/submedia/android/uqmlivewallpaper/Animation.java:117-193 | after getFrame every track's frame is still inside its stretch of the content pack |
| AmbientAnimation.WaitingTurn | UQMLiveWallpaper/src/main/java/net/submedia/android/uqmlivewallpaper/Animation.java:130-135 | a track whose alarm exceeds the elapsed time only counts down, stays positive, offers its alarm, and changes nothing else |
| AmbientAnimation.BlockedTurn | UQMLiveWallpaper/src/main/java/net/submedia/android/uqmlivewallpaper/Animation.java:136-138 | a due track that excludes an active track does not stamp, waits a fresh restart rate and offers nothing |
| AmbientAnimation.ReadyTurn | UQMLiveWallpaper/src/main/java/net/submedia/android/uqmlivewallpaper/Animation.java:130-150 | a track stamps if and only if it is due and no track it excludes is active; it stamps its current frame and offers the frame rate it drew |
| AmbientAnimation.ReadyTurnIs | UQMLiveWallpaper/src/main/java/net/submedia/android/uqmlivewallpaper/Animation.java:139-150 | a ready turn draws the frame rate first and moves with its own bit set in ActiveMask |
| AmbientAnimation.ReadyMove | UQMLiveWallpaper/src/main/java/net/submedia/android/uqmlivewallpaper/Animation.java:154-183 | after a stamp, ColorXform sets the alarm to 0; Yoyo and Circular move by their step and wait a restart rate exactly when the move ends the cycle; Random picks a frame in its stretch; no policy keeps the frame |
| AmbientAnimation.AdvanceYoyo | UQMLiveWallpaper/src/main/java/net/submedia/android/uqmlivewallpaper/Animation.java:157-172 | the four Yoyo cases: up, turning at the top, down, and turning at the bottom with a restart rate and the bit cleared |
| AmbientAnimation.AdvanceMask | UQMLiveWallpaper/src/main/java/net/submedia/android/uqmlivewallpaper/Animation.java:140-183 | after its bit is set, a track's move leaves it set unless the move ends the cycle, when only that bit is cleared |
| AmbientAnimation.ReadyMask | UQMLiveWallpaper/src/main/java/net/submedia/android/uqmlivewallpaper/Animation.java:139-183 | the mask after a ready turn is the move's, and whether the move ends the cycle does not depend on the alarm |
| AmbientAnimation.TurnMask | UQMLiveWallpaper/src/main/java/net/submedia/android/uqmlivewallpaper/Animation.java:139-183 | a track that stamps ends with its bit set, or clear when its move ends the cycle |
| AmbientAnimation.TurnActive | UQMLiveWallpaper/src/main/java/net/submedia/android/uqmlivewallpaper/Animation.java:130-183 | a turn leaves ActiveMask unchanged, or with the track's bit set, or with it cleared |
| AmbientAnimation.TurnOwnBit | UQMLiveWallpaper/src/main/java/net/submedia/android/uqmlivewallpaper/Animation.java:127-183 | a turn changes no bit of ActiveMask other than the track's own |
| AmbientAnimation.StampStep | UQMLiveWallpaper/src/main/java/net/submedia/android/uqmlivewallpaper/Animation.java:139-183 | the whole state after a ready track's turn: its track moved, the stamp appended, the delay lowered to the frame rate |
| AmbientAnimation.ReadyStep | UQMLiveWallpaper/src/main/java/net/submedia/android/uqmlivewallpaper/Animation.java:139-150 | a ready track's turn appends exactly its current frame to the picture |
| AmbientAnimation.TurnAlarm | UQMLiveWallpaper/src/main/java/net/submedia/android/uqmlivewallpaper/Animation.java:130-183 | with non-negative base rates a turn leaves the alarm non-negative |
| AmbientAnimation.RunTracks | UQMLiveWallpaper/src/main/java/net/submedia/android/uqmlivewallpaper/Animation.java:125-186 | each of the first n tracks is replaced by the result of its own turn and the others are untouched: every track takes exactly one turn per call, whatever the elapsed time |
| AmbientAnimation.TurnStartsFresh | UQMLiveWallpaper/src/main/java/net/submedia/android/uqmlivewallpaper/Animation.java:125-130 | track k's turn starts from that track as it was before the call |
| AmbientAnimation.RunDelay | UQMLiveWallpaper/src/main/java/net/submedia/android/uqmlivewallpaper/Animation.java:121-150 | after n turns the delay is the minimum of the starting delay and every value offered |
| AmbientAnimation.StepParts | UQMLiveWallpaper/src/main/java/net/submedia/android/uqmlivewallpaper/Animation.java:126-150 | one turn writes back its own track, ActiveMask, the draw count, and the delay lowered by its offer |
| AmbientAnimation.RunStamps | UQMLiveWallpaper/src/main/java/net/submedia/android/uqmlivewallpaper/Animation.java:125-145 | the picture only grows, by at most one stamp per track, and every stamp is a frame of the content pack |
| AmbientAnimation.StepStamps | UQMLiveWallpaper/src/main/java/net/submedia/android/uqmlivewallpaper/Animation.java:145 | one turn appends at most one stamp, a frame of the content pack |
| AmbientAnimation.TurnStamp | UQMLiveWallpaper/src/main/java/net/submedia/android/uqmlivewallpaper/Animation.java:145 | a stamp is always a frame of the content pack |
| AmbientAnimation.RunMask | UQMLiveWallpaper/src/main/java/net/submedia/android/uqmlivewallpaper/Animation.java:125-183 | the loop never changes a bit of ActiveMask that none of the visited tracks owns |
| AmbientAnimation.RunAlarms | UQMLiveWallpaper/src/main/java/net/submedia/android/uqmlivewallpaper/Animation.java:125-183 | with non-negative base rates every alarm stays non-negative, and no track changes its descriptor |
| AmbientAnimation.TickDelay | UQMLiveWallpaper/src/main/java/net/submedia/android/uqmlivewallpaper/Animation.java:121-189 | next_frame_delay after getFrame is at least FRAME_RATE, is FRAME_RATE when nothing was offered, is no more than any offer of at least FRAME_RATE, and is FRAME_RATE or one of the offers |
| AmbientAnimation.TickLeastOffer | UQMLiveWallpaper/src/main/java/net/submedia/android/uqmlivewallpaper/Animation.java:121-189 | when some track offers a delay below FRAME_RATE the next delay is FRAME_RATE; otherwise it is the least of the tracks' offers, clamped |
| AmbientAnimation.InitialTracks | UQMLiveWallpaper/src/main/java/net/submedia/android/uqmlivewallpaper/Animation.java:99-105 | one new track per descriptor array, in order, the k-th making the k-th draw |
| AmbientAnimation.SplitTable | UQMLiveWallpaper/src/main/java/net/submedia/android/uqmlivewallpaper/Animation.java:98-105 | the first name of the lookup table is the content array and the rest are the descriptors in order |
| AmbientAnimation.Animation.constructor | UQMLiveWallpaper/src/main/java/net/submedia/android/uqmlivewallpaper/Animation.java:96-105 | the object starts with the initial tracks, an empty mask, one draw per track and the creation time; it is valid exactly when every descriptor is well formed |
| AmbientAnimation.Animation.NextInt | UQMLiveWallpaper/src/main/java/net/submedia/android/uqmlivewallpaper/Animation.java:181 | `nextInt` returns the next value of the stream and advances it by one |
| AmbientAnimation.Animation.RandomFrameRate | UQMLiveWallpaper/src/main/java/net/submedia/android/uqmlivewallpaper/Animation.java:248-250 | randomFrameRate is the frame rate of the next draw, consuming one draw |
| AmbientAnimation.Animation.RandomRestartRate | UQMLiveWallpaper/src/main/java/net/submedia/android/uqmlivewallpaper/Animation.java:252-254 | randomRestartRate is the restart rate of the next draw, consuming one draw |
| AmbientAnimation.Animation.Move | UQMLiveWallpaper/src/main/java/net/submedia/android/uqmlivewallpaper/Animation.java:152-183 | the policy branch updates the track, ActiveMask and the draw count exactly as Advance |
| AmbientAnimation.Animation.MoveYoyo | UQMLiveWallpaper/src/main/java/net/submedia/android/uqmlivewallpaper/Animation.java:157-172 | the Yoyo branch agrees with Advance |
| AmbientAnimation.Animation.MoveCircular | UQMLiveWallpaper/src/main/java/net/submedia/android/uqmlivewallpaper/Animation.java:173-179 | the Circular branch agrees with Advance |
| AmbientAnimation.Animation.TakeTurnAt | UQMLiveWallpaper/src/main/java/net/submedia/android/uqmlivewallpaper/Animation.java:126-185 | the loop body for track i changes the object's state exactly as StepTrack |
| AmbientAnimation.Animation.CountDown | UQMLiveWallpaper/src/main/java/net/submedia/android/uqmlivewallpaper/Animation.java:130-135 | the waiting branch agrees with StepTrack |
| AmbientAnimation.Animation.Restart | UQMLiveWallpaper/src/main/java/net/submedia/android/uqmlivewallpaper/Animation.java:136-138 | the blocked branch agrees with StepTrack |
| AmbientAnimation.Animation.Stamp | UQMLiveWallpaper/src/main/java/net/submedia/android/uqmlivewallpaper/Animation.java:139-183 | the ready branch agrees with StepTrack |
| AmbientAnimation.Animation.StampFrame | UQMLiveWallpaper/src/main/java/net/submedia/android/uqmlivewallpaper/Animation.java:145-150 | DrawStamp appends the current frame, and the alarm becomes the frame rate of the next draw, offered to next_frame_delay |
| AmbientAnimation.Animation.GetFrame | UQMLiveWallpaper/src/main/java/net/submedia/android/uqmlivewallpaper/Animation.java:117-193 | getFrame keeps the object valid, moves it to Tick of the old state with the elapsed time, records the clock and returns the picture |
| Catalog.EntryIndex | UQMLiveWallpaper/src/main/java/net/submedia/android/uqmlivewallpaper/Content.java:143 | the index found holds an entry with that name and no earlier entry has it; the archive's length means there is none |
| Catalog.ReadEntry | UQMLiveWallpaper/src/main/java/net/submedia/android/uqmlivewallpaper/Content.java:141-147 | readFromContentPack fails exactly when no entry has the name, and otherwise returns the bytes of an entry of that name |
| Catalog.EntryNames | UQMLiveWallpaper/src/main/java/net/submedia/android/uqmlivewallpaper/Content.java:110-123 | the listed names are exactly the archive's names that pass the filter |
| Catalog.EntryNamesAppend | UQMLiveWallpaper/src/main/java/net/submedia/android/uqmlivewallpaper/Content.java:115-121 | listing keeps archive enumeration order |
| Catalog.NormalHotspot | UQMLiveWallpaper/src/main/java/net/submedia/android/uqmlivewallpaper/Content.java:207-210 | each hotspot coordinate becomes its absolute value, so a negative one flips sign |
| Catalog.ParseHotspot | UQMLiveWallpaper/src/main/java/net/submedia/android/uqmlivewallpaper/Content.java:216-218 | the hotspot parses exactly when both fields are Java ints, and is then their normalised values; otherwise the error names the first field that is not an int |
| Catalog.ParseFrameDef | UQMLiveWallpaper/src/main/java/net/submedia/android/uqmlivewallpaper/Content.java:184-186 | the line parses exactly when it splits into five fields whose fourth and fifth are Java ints; fewer fields is MissingField, a bad fourth field is NotAnInteger of it; a parsed line is field 0 with the normalised hotspot of fields 3 and 4, a filename without white space and a non-negative hotspot |
| Catalog.LoadFrameSpec | UQMLiveWallpaper/src/main/java/net/submedia/android/uqmlivewallpaper/Content.java:182-192 | Content.Frame fails on a bad line, on a missing image entry, and on a decoder null (reported as undecodable), and otherwise carries the line's filename, hotspot and decoded pixels |
| Catalog.LoadAll | UQMLiveWallpaper/src/main/java/net/submedia/android/uqmlivewallpaper/Content.java:67 | a successful load yields one frame per line |
| Catalog.LoadAllSucceeds | UQMLiveWallpaper/src/main/java/net/submedia/android/uqmlivewallpaper/Content.java:67 | loading the manifest succeeds if and only if every line loads |
| Catalog.LoadAllInOrder | UQMLiveWallpaper/src/main/java/net/submedia/android/uqmlivewallpaper/Content.java:67 | frame k of the result is line k's frame: manifest order is kept |
| Catalog.LoadAllFirstError | UQMLiveWallpaper/src/main/java/net/submedia/android/uqmlivewallpaper/Content.java:67 | a failed load reports the error of the first failing line, and every earlier line loaded |
| Catalog.LoadAllAbort | UQMLiveWallpaper/src/main/java/net/submedia/android/uqmlivewallpaper/Content.java:67-68 | once a line fails the rest are not tried: no partial catalog |
| Catalog.LoadAllExtend | UQMLiveWallpaper/src/main/java/net/submedia/android/uqmlivewallpaper/Content.java:67 | one more line either appends its frame or stops with its error |
| Catalog.Prefixed | UQMLiveWallpaper/src/main/java/net/submedia/android/uqmlivewallpaper/Content.java:130-132 | each line is resolved as the manifest's directory, "/", and the line |
| Catalog.PrefixEach | UQMLiveWallpaper/src/main/java/net/submedia/android/uqmlivewallpaper/Content.java:128-134 | the loop of aniToFileList builds exactly the prefixed lines, in order |
| Catalog.ManifestLines | UQMLiveWallpaper/src/main/java/net/submedia/android/uqmlivewallpaper/Content.java:125-135 | aniToFileList fails exactly when the manifest entry is missing, and otherwise returns the split lines prefixed with the manifest's parent directory |
| Catalog.FirstMatch | UQMLiveWallpaper/src/main/java/net/submedia/android/uqmlivewallpaper/Content.java:62-71 | the chosen manifest is the first, in archive order, inside a directory named after any alias |
| Catalog.SelectSpec | UQMLiveWallpaper/src/main/java/net/submedia/android/uqmlivewallpaper/Content.java:56-79 | no match, and only no match, closes the archive and reports the aliases; a build loads the first matching manifest in full; any other failure leaves the archive open and reports the first manifest's own error: its missing or undecodable text, else the first frame that fails to load |
| Catalog.IntTextIsToken | UQMLiveWallpaper/src/main/java/net/submedia/android/uqmlivewallpaper/Content.java:184 | an integer written out is one white-space-free field |
| Catalog.SplitJoined | UQMLiveWallpaper/src/main/java/net/submedia/android/uqmlivewallpaper/Content.java:184 | splitting n fields joined by single spaces with limit n gives back the fields |
| Catalog.TrimJoined | UQMLiveWallpaper/src/main/java/net/submedia/android/uqmlivewallpaper/Content.java:184 | trim leaves a line of space-joined fields unchanged |
| Catalog.ParseFormattedLine | UQMLiveWallpaper/src/main/java/net/submedia/android/uqmlivewallpaper/Content.java:182-187 | a well-formed line "file a b x y" parses back to that file and the absolute values of x and y |
| JavaText.IndexFrom | src/net/submedia/android/uqmwallpaper/Content.java:90 | indexOf returns the first occurrence at or after the start, or -1 when there is none |
| JavaText.ContainsIff | src/net/submedia/android/uqmwallpaper/Content.java:90 | contains holds if and only if the text occurs somewhere |
| JavaText.TrimSlice | UQMLiveWallpaper/src/main/java/net/submedia/android/uqmlivewallpaper/Content.java:184 | trim returns a slice whose cut-off ends hold only characters up to ' ', and which starts and ends above ' ' |
| JavaText.SplitOnSpaces | UQMLiveWallpaper/src/main/java/net/submedia/android/uqmlivewallpaper/Content.java:184 | `split("\\s+", limit)` yields between 1 and limit fields |
| JavaText.SplitFields | UQMLiveWallpaper/src/main/java/net/submedia/android/uqmlivewallpaper/Content.java:184 | every field but the last is free of white space, so is the last one when fewer than limit came out, and the last field is a suffix of the input |
| JavaText.SplitRebuild | UQMLiveWallpaper/src/main/java/net/submedia/android/uqmlivewallpaper/Content.java:184 | the fields, joined by non-empty runs of white space, give back the input, and no field after the first starts with white space |
| JavaText.CutAll | UQMLiveWallpaper/src/main/java/net/submedia/android/uqmlivewallpaper/Content.java:130 | the pieces between separators contain no separator, and an input without one is a single piece |
| JavaText.JoinCutAll | UQMLiveWallpaper/src/main/java/net/submedia/android/uqmlivewallpaper/Content.java:130 | joining the pieces with the separator gives back the input |
| JavaText.DropTrailingEmpty | UQMLiveWallpaper/src/main/java/net/submedia/android/uqmlivewallpaper/Content.java:130 | a prefix of the pieces, only empty pieces removed, ending in a non-empty one |
| JavaText.SplitLinesRejoin | UQMLiveWallpaper/src/main/java/net/submedia/android/uqmlivewallpaper/Content.java:130 | `split("\n")` loses nothing but trailing newlines: its lines joined by newlines are a prefix of the text followed only by newlines |
| JavaText.ParseInt | UQMLiveWallpaper/src/main/java/net/submedia/android/uqmlivewallpaper/Content.java:217 | parseInt yields only values that fit in a Java int, each the value of an optional sign followed by one or more ASCII digits; every such numeral that fits in an int parses to its value |
| JavaText.ParseDecimal | UQMLiveWallpaper/src/main/java/net/submedia/android/uqmlivewallpaper/Content.java:217 | parseInt reads back every int written in decimal, negative ones with a '-' |
| JavaText.DecimalString | tools/mkresources.py:120 | "%d" writes at least one digit and only digits |
| JavaText.DecimalRoundTrip | tools/mkresources.py:120 | the digits "%d" writes have the number's value |
| JavaText.LastIndexOf | UQMLiveWallpaper/src/main/java/net/submedia/android/uqmlivewallpaper/Content.java:127 | the last position of the character, or -1 |
| JavaText.ParentOfChild | UQMLiveWallpaper/src/main/java/net/submedia/android/uqmlivewallpaper/Content.java:127 | getParent of "dir/name" is "dir" for a normalised path |
| LiveContent.ManifestNameIsRegex | UQMLiveWallpaper/src/main/java/net/submedia/android/uqmlivewallpaper/Content.java:60 | the decided manifest test accepts exactly the names `.*comm/.*\.ani` matches |
| LiveContent.ListFilesMatching | UQMLiveWallpaper/src/main/java/net/submedia/android/uqmlivewallpaper/Content.java:110-123 | the loop lists exactly the manifest names, in archive order |
| LiveContent.AssetMatching | UQMLiveWallpaper/src/main/java/net/submedia/android/uqmlivewallpaper/Content.java:81-84 | assetMatching returns null exactly when no item has the suffix, and otherwise the first item that has it |
| LiveContent.AniToFileList | UQMLiveWallpaper/src/main/java/net/submedia/android/uqmlivewallpaper/Content.java:125-135 | the method returns the manifest's prefixed lines, or the missing-entry error |
| LiveContent.Outcome | UQMLiveWallpaper/src/main/java/net/submedia/android/uqmlivewallpaper/Content.java:75-78 | every exception leaves the constructor wrapped in a new IOException |
| LiveContent.LoadFrom | UQMLiveWallpaper/src/main/java/net/submedia/android/uqmlivewallpaper/Content.java:66-68 | loading the matched manifest builds its frames or throws the first failure, wrapped, with the archive open |
| LiveContent.Load | UQMLiveWallpaper/src/main/java/net/submedia/android/uqmlivewallpaper/Content.java:56-79 | the nested scan ends in the selection SelectSpec describes, with every exception wrapped |
| LiveContent.LoadLines | UQMLiveWallpaper/src/main/java/net/submedia/android/uqmlivewallpaper/Content.java:67 | the frame loop builds every frame in order or stops at the first failing line |
| LiveContent.FirstMatchIs | UQMLiveWallpaper/src/main/java/net/submedia/android/uqmlivewallpaper/Content.java:62-71 | the scan stops at the first manifest matching any alias |
| LegacyContent.ListFilesMatching | src/net/submedia/android/uqmwallpaper/Content.java:82-95 | the loop lists exactly the names containing the prefix and ending with the suffix, in archive order |
| LegacyContent.CheckPack | src/net/submedia/android/uqmwallpaper/Content.java:72-80 | the stub constructor succeeds exactly when some entry is a manifest, and otherwise throws "no content found" |
| LegacyContent.AniToFileList | src/net/submedia/android/uqmwallpaper/Content.java:97-113 | the method returns the manifest's prefixed lines, or the missing-entry error |
| LegacyContent.Outcome | src/net/submedia/android/uqmwallpaper/Content.java:62-67 | an exception is wrapped exactly when it is not an IOException |
| LegacyContent.LoadFrom | src/net/submedia/android/uqmwallpaper/Content.java:51-56 | loading the matched manifest builds its frames or throws the first failure, IOExceptions unwrapped, with the archive open |
| LegacyContent.Load | src/net/submedia/android/uqmwallpaper/Content.java:40-68 | the nested scan ends in the selection SelectSpec describes, wrapping only non-IOExceptions |
| LegacyContent.CommBeforeSuffix | src/net/submedia/android/uqmwallpaper/Content.java:90 | in a name ending ".ani", an occurrence of "comm/" ends before that suffix |
| LegacyContent.FiltersAgree | src/net/submedia/android/uqmwallpaper/Content.java:90 | on names without line terminators the old contains/endsWith filter and the new regex accept the same names |
| LegacyContent.FiltersDifferOnNewline | src/net/submedia/android/uqmwallpaper/Content.java:90 | "comm/\n.ani" passes the old filter but not the regex |
| LegacyContent.EntryNamesAgree | src/net/submedia/android/uqmwallpaper/Content.java:82-95 | two filters that agree on every entry list the same names |
| LegacyContent.SameManifests | src/net/submedia/android/uqmwallpaper/Content.java:45 | for a pack without line terminators in its names both loaders list the same manifests in the same order |
| LegacyContent.SameSelection | src/net/submedia/android/uqmwallpaper/Content.java:40-68 | for such a pack both loaders build the same frames or fail for the same reason with the archive in the same state; only the wrapping differs |
| Resources.AllVariants | tools/mkresources.py:156-171 | the race's own name comes first, and an unknown name gives only itself |
| Resources.VariantsFollowName | tools/mkresources.py:159-169 | after the name come exactly its table entries, in order |
| Resources.VariantExamples | tools/mkresources.py:156-171 | zoqfot gives zoqfot, zoqfotpik; starbas gives starbas, comandr, commander; orz gives only orz |
| Resources.VariantsAreDirNames | tools/mkresources.py:156-171 | every variant is a single directory name |
| Resources.StripTrailingSlashes | tools/mkresources.py:93 | dirname's strip removes only trailing slashes |
| Resources.Basename | tools/mkresources.py:93 | basename holds no '/' |
| Resources.RaceOfPath | tools/mkresources.py:93 | the race is the name of the directory holding the source file |
| Resources.DirnameOfPath | tools/mkresources.py:93 | dirname of ".../race/file" is ".../race" |
| Resources.BasenameOfPath | tools/mkresources.py:93 | basename of ".../race" is "race" |
| Resources.DescSearch | tools/mkresources.py:94 | the search finds the leftmost position where `desc((?!_1x).+)$` matches, or none |
| Resources.OutputFileNameRule | tools/mkresources.py:93-98 | the file is race + the text after the leftmost matching "desc" + ".xml", or race + ".xml" when nothing matches |
| Resources.PlainNameExample | tools/mkresources.py:94-98 | "orz_desc" writes orz.xml |
| Resources.HiResNameExample | tools/mkresources.py:94-96 | "orz_desc_4x" writes orz_4x.xml |
| Resources.LowResNameExample | tools/mkresources.py:94-98 | "orz_desc_1x" writes orz.xml |
| Resources.AnimNamesDistinct | tools/mkresources.py:120 | distinct tuples get distinct array names |
| Resources.LookupTable | tools/mkresources.py:127-140 | the table holds the content array first, then the animation arrays from the last to the first |
| Resources.AnimArrays | tools/mkresources.py:119-125 | one integer array per tuple, the i-th named anim i and holding tuple i |
| Resources.TableNamesResolve | tools/mkresources.py:112-140 | every table name names an array of the same file: first the content directories, then each tuple's integer array |
| Resources.Reversed | tools/mkresources.py:134 | a reversed list holds the same items from the last to the first |
| Resources.ReverseThenPop | tools/mkresources.py:134-140 | reversing, popping the last item, then walking the rest yields the first item followed by the others reversed |
| Resources.Reverse | tools/mkresources.py:134 | reversing in place leaves the array reversed |
| Resources.EmitDesc | tools/mkresources.py:85-140 | a descriptor with fewer than one animation writes no file, and any other writes its content array, animation arrays and lookup table under its output name |
| Resources.AddArrays | tools/mkresources.py:112-125 | the loop adds the content array and then one array per tuple, recording each name in order |
| Resources.TableOrder | tools/mkresources.py:134-140 | the table is the first recorded name followed by the others reversed |
| Resources.TableFromList | tools/mkresources.py:127-140 | that order is the lookup table: content, then the animations from the last to the first |

## Left out

- Opening the archive is not modelled. This covers copying the content pack into the
  cache directory (setupContent), `new ZipFile`, `close`, and the reads
  behind readFromContentPack. The constructors take an opened archive, and
  `Outcome.closedArchive` records whether the archive was closed.
- Image decoding (`BitmapFactory.decodeByteArray`) is a function parameter.
- `new String(bytes)` maps each byte to one character. The platform charset
  is not modelled.
- The Android resource lookups in Animation's constructor are not modelled:
  the null race, `getIdentifier` and a missing resource id. The model starts
  from the lookup table's names (SplitTable) and the arrays they resolve to
  (the constructor's parameters).
- The Canvas is not modelled: copying the background bitmap and the pixels
  DrawStamp writes. The picture is the sequence of frame indices stamped onto
  frame 0.
- `Random` is the stream `rng` with `nextInt(b) = rng(k) % b`. This is not
  Java's linear congruential generator.
- `SystemClock` is the `now` parameter.
- Overflow is not modelled. `long` to `int` narrowing in
  `f.Alarm -= ElapsedTicks` and any `int` overflow of alarms or delays are
  left out; alarms and delays are unbounded integers.
- Hotspot coordinates are kept as integers, not Java `float`s. Values above
  2^24 in magnitude would round in the source.
- An alias is treated as literal text in `file.matches(".*/" + alias + "/.*")`.
  Regex metacharacters in an alias are not modelled.
- toString, the commented-out `main` of the legacy loader, the settings and
  engine classes, and the Log calls are left out.
- The C-parsing side of mkresources.py is left out: pycparser, the LOCDATA
  offsets, Emit's evaluation of the tuples, the temporary header, writing the
  XML and xmllint. The model's inputs are the source path, the descriptor's
  name, its NumAnimations value and its evaluated tuples.
- AmbientAnimation.Animation.constructor requires every descriptor array to
  hold at least eight values, each fitting its Java field without a narrowing
  cast, and no restart span of -1. The source narrows such values silently and
  divides by zero for a span of -1.
- AmbientAnimation.Animation.constructor also requires a non-empty content
  pack. `content.frame.get(0)` throws otherwise.
- AmbientAnimation.Animation.GetFrame requires a valid object and a clock
  that does not run backwards. Valid means every track's descriptor is
  WellFormed and its frame lies in its own stretch. WellFormed means its
  frames exist in the content pack, NumFrames is between 1 and 127, the rates
  are shorts with no span of -1, and CurIndex cannot overflow a short. The
  source checks none of this. An ill-formed descriptor makes it throw, or
  makes it stamp frames outside the track's stretch (a Yoyo track with
  NumFrames 0, for one).
- Catalog.EntryIndex takes the first of several entries with the same name.
  Java's ZipFile does not: OpenJDK returns the later duplicate and Android
  refuses an archive with duplicate names. An archive with distinct names,
  the only kind a content pack is built as, behaves the same in all three.
- Resources.OutputFileName requires a descriptor name without '\n', since `$`
  also matches before a final newline. It also requires a race without '\\',
  since `expand` would read that as a template escape.
