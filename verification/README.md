# ud — Update Delay, modelled in Dafny

`ud` measures how long an application takes between visible repaints. It
polls the screen every 20 ms. On each pass it enumerates the top-level
windows and picks the first eligible window whose title matches a wildcard
name, or whose process id or handle equals a number. It copies that
window's region (or its client area) off the screen. It compares the copy
with the one it kept from before. On a difference it prints the
milliseconds since the previous difference, ten values per line. Without
a name it lists the eligible windows and exits.

This project models the decision logic of that loop as pure functions over
immutable data. The operating-system queries become input data: the window
records, the screen as a function from region to capture, the success of the
bitmap header queries, and the time of each pass.

- `Regex` (regex.dfy): the fragment of ECMAScript regex text that the
  translation emits (`.`, `[c]`, `*`, `?`, `$`). It has a parser, an
  unparser that inverts it, and whole-string, case-insensitive matching.
  Case folding is a parameter `fold`.
- `Wildcard` (wildcard.dfy): the translation of the application name into
  regex text, and a directly defined glob matcher. The theorem
  `TranslateMeaning` says that, for a name without `\`, `]` or `^`, the regex
  matches a title exactly when the glob does.
- `Windows` (windows.dfy): title normalisation, window eligibility, the match
  predicate, the first-match scan standing for `EnumWindows` with its early
  stop, the enumerate-mode listing, and the capture region.
- `Differencer` (differencer.dfy): `HasBitmapChanged` as a one-slot state
  machine. `Observe` is the reference behaviour. The method
  `HasBitmapChanged` follows the source's control flow and pixel loop and is
  proved equal to `Observe`.
- `Reporter` (reporter.dfy): delta computation and line wrapping, proved
  equal to a positional rendering in which no line holds more than ten values.
- `AppId` (appid.dfy): `wcstoull(name, &end, 0)`, the numeric reading of the
  name.
- `Args` (args.dfy): the argument loop of `wmain`.
- `Tracker` (tracker.dfy): one tracking pass, a run of passes, and the
  dispatch between enumerate and tracking mode.

Three consequences of the translation that are easy to misread:
- `?` becomes `.?`, which matches zero or one character
  (`QuestionMatchesZeroCharacters`).
- The `$` anchor makes the whole title take part: `*excel` does not match
  `EXCEL.EXE - Book1` (`StarExcelRejectsExcelExe`).
- The regex `.` does not match line terminators. After normalisation these
  are only carriage return and line feed, so `*` and `?` do not match those
  two characters either.

Behaviour of the code that the model keeps as written:
- The "already have a name" test checks whether the name is empty. So an
  empty first positional argument does not block a second one
  (`Args.Consume`, `PositionalsOk`).
- A name that does not start with a number reads as id 0
  (`AppId.NonNumericNameIsZero`). So a window whose process id is 0 matches
  any such name.
- The regex is built and matched for every eligible window before the id
  comparison is looked at.

A name containing `\`, `]` or `^` translates to regex text outside the
fragment above. Under the ECMAScript grammar much of that text still
compiles, with a meaning of its own: `[^]` matches any one character, and
`[\]` opens a class holding `]`. A `\` token with no later `]` leaves a
class unterminated, and then the regex constructor throws. The model gives that
text no meaning. It stops the pass at the first eligible window instead
(`Located.Unsupported`, `TickResult.Halted`); see "## Left out".

## Model

| member | source | states |
|---|---|---|
| Regex.ParseUnparse | ud.cxx:349-372 | Writing a sequence of well-formed regex pieces and reading the text back gives the same pieces. |
| Regex.UnparseParse | ud.cxx:349-372 | Any text the parser accepts is exactly the text of the pieces it returns, and those pieces are well formed. |
| Wildcard.Translate | ud.cxx:349-372 | The regex text has length 2·(wildcards) + 3·(other characters) + 1 ≤ 3·len + 1 and ends with `$`. |
| Wildcard.TranslationFits | ud.cxx:60-61 | A name that fits the MAX_PATH buffer has a translation that, with its terminator, fits the 3·MAX_PATH regex buffer. |
| Wildcard.TranslateIsUnparse | ud.cxx:353-371 | The translation is `*`→`.*`, `?`→`.?`, any other c→`[c]`, in order, followed by `$`. |
| Wildcard.ParseTranslation | ud.cxx:349-372 | The translation of a name without `\`, `]`, `^` reads back as one piece per name character plus the end anchor. |
| Wildcard.TranslationOutsideFragment | ud.cxx:363-368 | A name containing `\`, `]` or `^` translates to text outside the one-character-class fragment. |
| Wildcard.ParseAfterToken | ud.cxx:353-368 | The `[c]` token of an ordinary character, or the `.*` or `.?` token of a wildcard, reads as that character's piece when further piece text follows. |
| Wildcard.PiecesMatchGlob | ud.cxx:353-362 | Matching the pieces of a name against a title is the same as matching the name as a glob. |
| Wildcard.TranslateMeaning | ud.cxx:201-205 | For a clean name, regex_match of a title against the translated regex holds exactly when the title glob-matches the name. |
| Wildcard.GlobStar | ud.cxx:353-357 | `*` absorbs any run of characters other than line terminators. |
| Wildcard.GlobLiteral | ud.cxx:363-368 | A name without wildcards matches exactly the equal-length titles that agree with it character by character up to case. |
| Wildcard.GlobStarLiteral | ud.cxx:371 | Every title that `*` followed by a literal name matches ends with that name, up to case. |
| Wildcard.StarExcelMatchesMicrosoftExcel | ud.cxx:37 | `*excel` matches "Microsoft Excel" under ASCII case folding. |
| Wildcard.StarExcelRejectsExcelExe | ud.cxx:371 | `*excel` does not match "EXCEL.EXE - Book1", because of the end anchor. |
| Wildcard.StarExcelRejectsExcellent | ud.cxx:371 | `*excel` does not match "Excellent App". |
| Wildcard.CalcStarIsAnchoredAtStart | ud.cxx:38 | `calc*` matches "Calculator" and does not match "My Calc". |
| Wildcard.QuestionMatchesZeroCharacters | ud.cxx:358-362 | `calc?` matches both "calc" and "calcs": `?` matches zero or one character. |
| Windows.Normalise | ud.cxx:171-175 | Characters in U+2000..U+206F become spaces; every other character and the length are unchanged. |
| Windows.NormaliseIdempotent | ud.cxx:173-175 | Normalising twice equals normalising once. |
| Windows.NormaliseClearsPunctuation | ud.cxx:173-175 | A normalised title holds no punctuation-range character, and its only line terminators are CR and LF. |
| Windows.IneligibleIgnored | ud.cxx:150-190 | A window that is hidden, has no title, carries the console's title, fails the placement or info query, or is neither normal nor maximised is skipped: the scan moves on to the next window and the listing omits it. |
| Windows.MatchWindow | ud.cxx:201-205 | The match is undefined exactly when the regex is outside the fragment. Otherwise a process id or handle equal to the id selects the window whatever its title, and a rejected window has neither. |
| Windows.MatchByWildcard | ud.cxx:201-205 | For a name without `\`, `]`, `^`, a window matches exactly when its normalised title glob-matches the name or its process id or handle equals the id. |
| Windows.Locate | ud.cxx:150-311 | A found window is eligible and matches. Every earlier window is ineligible or does not match. NotFound holds exactly when no eligible window matches. |
| Windows.LocateStopsEarly | ud.cxx:311 | Windows after the stopping point never influence the result. A scan that finds nothing continues into later windows. |
| Windows.LocateByWildcard | ud.cxx:201-205 | For a clean name, the scan never halts. It finds the first eligible window whose normalised title glob-matches, or whose pid or hwnd equals the id. |
| Windows.ListWindows | ud.cxx:194-198 | Enumerate mode lists exactly the eligible windows, each with its rectangle, handle, pid and normalised title. |
| Windows.ListWindowsAppend | ud.cxx:194-198 | The listing is computed window by window: the listing of a concatenation is the concatenation of the listings. |
| Windows.CaptureRegion | ud.cxx:214-243 | The copied region is the window rectangle (whole window, or no client rectangle). Otherwise it is the client rectangle placed at the mapped client origin. |
| Differencer.Observe | ud.cxx:64-146 | A change is reported exactly when a frame is retained, its header can be read, and the latest frame's header cannot be read or its picture differs. A change adopts the latest frame. No change keeps the retained frame, or adopts the latest frame when none was retained. |
| Differencer.QueryFailures | ud.cxx:69-137 | If the retained frame's header cannot be read, the answer is "no change" and the retained frame stays. If only the latest frame's header cannot be read, the answer is "change" and the latest frame is adopted. |
| Differencer.HasBitmapChanged | ud.cxx:64-146 | The header-then-pixel-loop computation gives the same answer and retained frame as the reference behaviour. |
| Differencer.NoChangeKeepsRetained | ud.cxx:127-130 | A "no change" answer keeps the retained frame. |
| Differencer.ChangedIffDifferent | ud.cxx:85-137 | With both header queries succeeding, a change is reported iff the headers differ or some pixel within width·\|height\| differs. |
| Differencer.ResizeIsChange | ud.cxx:87-101 | A change of width or height is reported as a change, and the latest frame is adopted. |
| Differencer.ObserveAll | ud.cxx:139-145 | After any non-empty run of captures, a frame is retained. |
| Differencer.FirstFrameNeverChanged | ud.cxx:139-145 | The first capture of a fresh run is never reported as a change. |
| Differencer.RepeatedPictureNeverChanged | ud.cxx:112-130 | Observing the same picture any number of times reports no change and keeps the retained frame. |
| Reporter.OnChange | ud.cxx:258-270 | The last value written is now − tPrior, and tPrior becomes now. A counter in 0..10 ends in 1..10. |
| Reporter.ReportAllRenders | ud.cxx:263-270 | After k values, reporting more changes writes their deltas with a line break exactly before each run position that is a positive multiple of 10. |
| Reporter.ReportFromStart | ud.cxx:258-270 | From the loop start, the output is that positional rendering of the deltas, and tPrior ends at the last change. |
| Reporter.DeltasTelescope | ud.cxx:260-261 | The deltas add up to the time from the start to the last change. |
| Reporter.RenderLinesBounded | ud.cxx:263-267 | No line of the rendering holds more than 10 values. |
| Reporter.ReporterLinesBounded | ud.cxx:263-270 | The reporter's own output never puts more than 10 values on a line. |
| AppId.ParseAppId | ud.cxx:386 | The numeric reading of the name is a 64-bit unsigned value. |
| AppId.DecimalRoundTrip | ud.cxx:385-386 | A decimal number reads back as itself when it fits in 64 bits, and saturates to the maximum otherwise. |
| AppId.HexRoundTrip | ud.cxx:386 | `0x` followed by a hexadecimal number reads back as that number. |
| AppId.UnsignedDigits | ud.cxx:386 | Without a leading space or sign, a name made of digits in the base it selects reads as their value, saturated at the 64-bit maximum. |
| AppId.NonNumericNameIsZero | ud.cxx:386 | A name that starts with a letter, `*`, `?` or any non-numeric, non-space, non-sign character reads as 0. |
| AppId.ValueOfToBase | ud.cxx:386 | The digits of a number in a base evaluate back to the number, with no leading zero. |
| Args.ParseArgs | ud.cxx:327-390 | An accepted command line in enumerate mode has no name, no regex and id 0. In tracking mode the regex is the name's translation and the id is the name's numeric reading, at most 2^64 − 1. |
| Args.ConsumeSucceeds | ud.cxx:327-379 | Reading succeeds iff every option is valid and no positional argument follows a non-empty name. |
| Args.ConsumeOptions | ud.cxx:331-341 | A successful read sets whole-window and verbose exactly when a `w` or `v` option occurred, in either case. |
| Args.ConsumeEnumerate | ud.cxx:342-345 | A successful read enumerates exactly when no positional argument occurred. |
| Args.ConsumeLastName | ud.cxx:342-376 | With positional arguments, the name is the last one and the regex is its translation. |
| Args.ParseArgsMeaning | ud.cxx:327-390 | The command line is accepted iff options are w/v and at most the last positional argument is non-empty. It enumerates iff there is no positional argument; otherwise name, regex and id come from the last one. |
| Args.TwoNamesRejected | ud.cxx:377-378 | A positional argument after a non-empty one is a usage error. |
| Tracker.Tick | ud.cxx:201-311 | A pass halts exactly at an unsupported regex and does nothing when no window matches. Otherwise the found window's region is captured. A failed capture changes no state and surfaces its error unless it is the invalid-handle copy failure. A capture goes to the differencer, whose retained frame is kept. On a change the pass writes exactly the reporter's output, an optional line break and then the delta, and the reporter advances to now; on no change it writes nothing. Each shown delta is now − tPrior, the line counter stays in 0..10, and the shown deltas sum to the advance of tPrior. |
| Tracker.Track | ud.cxx:396-405 | A run halts exactly when some pass sees windows whose scan meets an unsupported regex. Captures and reports never decide it. |
| Tracker.TrackDeltasTelescope | ud.cxx:258-261 | The deltas a run reports add up to the time from the start to the last reported change. |
| Tracker.TrackKeepsInvariants | ud.cxx:396-405 | Across passes, a retained frame stays retained and the line counter stays in 0..10. |
| Tracker.CleanNameNeverHalts | ud.cxx:201-205 | Tracking a name without `\`, `]`, `^` never reaches an unsupported regex. |
| Tracker.Run | ud.cxx:381-405 | Enumerate mode lists the eligible windows of the first pass and stops; tracking mode runs every pass from the start state. A run keeps the line counter in 0..10, and its deltas sum to the last change time minus the start. |

## Left out

- Win32 and GDI calls (GetDC, CreateCompatibleDC/Bitmap, BitBlt, GetDIBits, DeleteObject, GetWindowText, GetConsoleTitle, GetWindowPlacement, GetWindowInfo, GetClientRect, MapWindowPoints, GetGuiResources). Their results are inputs: window records, a screen function from region to capture, and header-query flags.
- Freeing and ownership of bitmaps and device contexts: the model has no handles. The retained frame is a value.
- The 20 ms wait (djl_wait.hxx is not part of this model), the clock, the endless loop and DPI awareness. A run is a finite sequence of passes with integer-millisecond times.
- The std::regex engine. Its meaning on the translation's fragment is defined directly. Regex text outside that fragment is reported as unsupported, not given a meaning.
- Case folding is a parameter of matching. The examples use ASCII folding.
- printf formatting, the usage text, the verbose diagnostics and the HasBitmapChanged diagnostic messages.
- Windows.Normalise: the 1000-character text buffers are not modelled; titles are taken as retrieved.
- Windows.MatchWindow: assumes a 64-bit build, where casting the id to a window handle keeps all 64 bits.
- Windows.Eligible: wcscmp is modelled as sequence equality, since retrieved texts hold no NUL.
- Windows.CaptureRegion: 32-bit overflow of `right - left` is not modelled; screen coordinates are far inside the range.
- Wildcard.TranslationFits: names longer than MAX_PATH − 1 overflow the name buffer in the source. The model reads them in full and only bounds the translation of names that fit.
- Differencer.Observe: the pixel count width·|height| is computed without 32-bit overflow. Frames hold the pixel values GetDIBits delivers, zero-padded like the source's zero-initialised buffers.
- Reporter.OnChange: the model's clock reads whole milliseconds. The program keeps tPrior at the clock's full resolution and truncates each printed delta to whole milliseconds.
- Reporter.DeltasTelescope: the exact sum holds only for the model's whole-millisecond times, and the same goes for Tracker.TrackDeltasTelescope and the sum clause of Tracker.Tick and Tracker.Run. In the program each printed delta is truncated while tPrior is not, so the printed deltas can fall short of the elapsed time by less than 1 ms per change.
- AppId.ParseAppId: only the ASCII white-space characters are skipped; the locale's wide white-space set is not modelled.
- Args.OptionLetter: option letters are folded with `Wildcard.AsciiFold`, so only ASCII letters are lower-cased; tolower on wide characters above 255 is not modelled.
- Tracker.Tick: a regex outside the modelled fragment halts the modelled run at the first eligible window. The program instead compiles many such regexes (`[^]`, `[\]...]`) and keeps polling, where the id comparison can still select a window; it throws, for instance, when a `\` token has no later `]`.
- Wildcard.TranslateMeaning: names and titles are sequences of Unicode scalar values, while the program matches UTF-16 code units. A character outside the Basic Multilingual Plane is one character here and two code units there, so `?` and `*` count it differently. For example, `a?` matches "a" followed by U+1F600 here but not in the program.
- Wildcard.TranslationFits: counts characters, not UTF-16 code units, so a name with characters outside the Basic Multilingual Plane needs more of the MAX_PATH buffer than the model counts.
