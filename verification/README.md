# Verified models of the NMS's stateful and parsing code

The management front end and its tools contain a few self-contained pieces with real
state or real parsing. Each is modelled here in Dafny and proved against what the code
and its comments promise. `dafny verify dfyconfig.toml` checks everything.

**Browser history** (`TabIds`, `TabHistory`, `SheetDiscipline`, `TabTape`, `TabApp`,
`NavItems`). `useTabHistory` drives the active tab from the session history list, and
`useSheetBackDismiss` pushes marker entries onto the same list. A system state is the
list of entries (fragment, `nmsTab`, sheet marker), the cursor, the active tab, the ref
that `navigate` compares with, and whether a sheet is open. Steps are reload, render,
`navigate`, traversal to any entry, a fragment edit, and opening and closing a sheet.
Push drops everything above the cursor and replace rewrites the current entry; a
traversal fires popstate, and hashchange as well when the fragment differs (sections
7.2.5 and 7.4 of the WHATWG HTML Standard). Whether a fragment edit also fires popstate is left open
in each step, so every result holds for both kinds of browser. `TabApp` is the same
machine as event handlers on fields. `TabTape` compares it with a tape of tabs that
knows no fragments, state objects or refs.

Assumed about the browser history: one sheet at a time with a stable `onClose`, a
`history.back()` that settles before the next step, entries of this document only, and
a first entry that is foreign or whose state and fragment agree. Two more things are
asked for step by step: ids shaped like tab ids (`NavItems` shows that the real build
always meets this) and, in `TabTape` and where a row says "settled", that a change of tab
is rendered before `navigate` is called again; otherwise see `NavigationsMoveIff`.
`origin`, a field of the modelled entry, is bookkeeping that no step reads.

What is false of the code is proved with a failing input and its exact condition. A
fragment edit that carries no id leaves the shown tab and the entry apart, but only
where a fragment navigation fires no popstate (`EditSyncedIff`, `LogsDrift`). The
comment at frontend/src/hooks/useTabHistory.ts:105-108 says it fires none; by the Standard's
rules for navigating to a fragment popstate does fire, and there the code is right. From
an open sheet's marker, a reload, a navigation to another tab or an edit to another
fragment strands the marker, and so does moving onto any marker (`StepStrandsIff`); a
stranded marker makes a later back press silent (`NavigatingUnderSheetStrands`,
`ForwardOntoMarkerIsSilent`), although the comment on `useSheetBackDismiss` says that no
entry can linger.

**Parsers and codecs** (`Text`, `Regex`, `HnbList`, `HnbRoundTrip`, `Chrony`, `HexCodec`,
`AddressBox`). `Regex` models greedy backtracking matching; the parsers run on it and
are proved against forms that mention no engine.

**Streams and indexes** (`LineLog`, `LogWindow`, `Sites`, `Sorting`, `Traffic`,
`SuciKeys`) and **loops with a measure** (`ByteUnits`, `Reboot`) each compare the
stateful code with a simple form. `Prelude` holds facts about sequences. The unfinished
last line of both output streams is logged on close, as backend/src/index.ts:894-895 do.

## Model

| member | source | states |
|---|---|---|
| TabIds.SpelledIdReadsBack | frontend/src/hooks/useTabHistory.ts:16-30 | a tab id in the fragment is read back whichever of its characters are percent-escaped, in upper or lower case hex |
| TabIds.ReadsAsIff | frontend/src/hooks/useTabHistory.ts:16-30 | a fragment reads as an id exactly when it is some spelling of 1 to 40 lower-case letters, digits and dashes |
| TabHistory.SeedingMeaning | frontend/src/hooks/useTabHistory.ts:70-89 | the mount effect leaves a restorable entry, corrects a fragment that named a bad tab, leaves a bare URL alone, and has nothing to do a second time |
| TabHistory.MountSyncedIff | frontend/src/hooks/useTabHistory.ts:63-89 | exactly which first entries restore what the app shows after mounting on them |
| TabHistory.StepKeepsInv | frontend/src/hooks/useTabHistory.ts:60-149 | every step keeps: the active tab is what a pop to the current entry would restore, state and fragment of every entry agree, every marker restores what lies beneath it |
| TabHistory.EveryRunIsSynced | frontend/src/hooks/useTabHistory.ts:60-149 | in every run from a mount the active tab is the one the current entry restores, and is a known tab or the default |
| TabHistory.NavigateSyncedIff | frontend/src/hooks/useTabHistory.ts:130-149 | a navigation keeps tab and entry together exactly when it goes nowhere or to an id shaped like a tab id |
| TabHistory.EditSyncedIff | frontend/src/hooks/useTabHistory.ts:105-114 | a fragment edit keeps them together exactly when the URL stays, popstate fires too, the fragment carries an id, or the default was showing |
| TabHistory.ClearingTheFragmentDrifts | frontend/src/hooks/useTabHistory.ts:48-114 | from a mount on a bare URL, going to any known tab but the default and then clearing the fragment without popstate leaves that tab shown on an entry that restores the default |
| TabHistory.LogsDrift | frontend/src/hooks/useTabHistory.ts:48-114 | the same with concrete ids, and that nothing goes wrong when popstate fires |
| TabHistory.NavigateShows | frontend/src/hooks/useTabHistory.ts:60-61 | from a settled state a known tab is shown, an unknown one leads to the default; a change pushes one entry with that fragment and state, and the tab already shown changes nothing |
| TabHistory.MountShows | frontend/src/hooks/useTabHistory.ts:60-63 | a link shows the tab it names exactly when the build knows it or it is the default; a bare URL shows the default |
| TabHistory.RestoreMeaning | frontend/src/hooks/useTabHistory.ts:93-104 | a pop restores the tab of the state if it is shaped like an id, else that of the fragment, and the default for unknown ids and for none |
| TabHistory.RefMoves | frontend/src/hooks/useTabHistory.ts:124-147 | the ref follows renders, navigations and reloads and nothing else |
| TabHistory.RenderSettles | frontend/src/hooks/useTabHistory.ts:124-147 | after any step and a render, navigating to another known tab pushes it, and to the shown one does nothing |
| NavItems.AppNavigationsAreWellFormed | frontend/src/components/common/navItems.ts:37-118 | with the app's own ids and default, every navigation goes to an id shaped like a tab id, whatever the feature flags |
| SheetDiscipline.StepStrandsIff | frontend/src/mobile/MobileKit.tsx:332-346 | from a clean state exactly these steps strand a marker, as decided before the step, and every other step leads to a clean state: from a marker, a reload, a navigation to another tab or an edit to another fragment; and moving onto a marker |
| SheetDiscipline.DisciplinedRunStaysClean | frontend/src/mobile/MobileKit.tsx:322-346 | in runs without such steps no marker lies at or below the cursor except an open sheet's own, at the cursor |
| SheetDiscipline.DismissUndoesOpen | frontend/src/mobile/MobileKit.tsx:332-346 | opening a sheet and dismissing it by back or by any control gives the same state: cursor, tab and list up to the cursor as before |
| SheetDiscipline.ReopeningDoesNotGrow | frontend/src/mobile/MobileKit.tsx:332-346 | opening and dismissing again leaves the very same state |
| SheetDiscipline.NavigationsMoveIff | frontend/src/hooks/useTabHistory.ts:130-149 | entries pushed by `navigate` keep restoring another tab than the entry beneath them, exactly until a call repeats the active tab before that tab was rendered |
| SheetDiscipline.PagesMoveIff | frontend/src/hooks/useTabHistory.ts:93-149 | all entries but markers do so exactly until such a call, or a fragment edit that names the active tab or replaces a marker |
| SheetDiscipline.BackIsSilentIff | frontend/src/hooks/useTabHistory.ts:93-104 | where all pages move, a back press from any entry keeps the tab exactly when it leaves a marker |
| SheetDiscipline.OrderlyIff | frontend/src/mobile/MobileKit.tsx:322-346 | over whole runs: looking at each step before it is taken tells exactly whether no marker is ever stranded and the entries keep moving |
| SheetDiscipline.BackIsNeverSilent | frontend/src/mobile/MobileKit.tsx:322-346 | after any orderly run, one back press dismisses the open sheet and keeps the tab, or changes the tab, and never touches the list: from every entry `navigate` or a sheet pushed, and after a run without repeated tabs also from entries made by fragment edits |
| SheetDiscipline.NavigatingUnderSheetStrands | frontend/src/mobile/MobileKit.tsx:339-344 | from any clean settled state, open, navigate to another tab, close, back: the next back press is silent |
| SheetDiscipline.ForwardOntoMarkerIsSilent | frontend/src/mobile/MobileKit.tsx:339-344 | going forward onto a dismissed sheet's marker, and back again, shows the same tab throughout |
| TabTape.StepRefinesTape | frontend/src/hooks/useTabHistory.ts:48-152 | each step is the step of a plain tape of tabs and markers, and the active tab is the cell under the cursor; a reload is invisible |
| TabTape.NavigationsPush | frontend/src/hooks/useTabHistory.ts:130-149 | n calls push one entry per change of tab (at most n), each restoring another tab than the one beneath, and keep the list below |
| TabTape.BackUndoesNavigations | frontend/src/hooks/useTabHistory.ts:93-149 | as many back presses as entries were pushed restore cursor and tab, each showing another tab, with the list untouched |
| TabTape.StrandedMarkerIsSilent | frontend/src/mobile/MobileKit.tsx:326-330 | in every run a marker at or below the cursor makes the back press that leaves it silent |
| TabTape.TravelAndReturn | frontend/src/hooks/useTabHistory.ts:93-104 | going to any entry and back again restores the state, but for a closed sheet |
| TabAppModel.TabApp.Reload | frontend/src/hooks/useTabHistory.ts:63-89 | the mount code is the reload step of the machine |
| TabAppModel.TabApp.Navigate | frontend/src/hooks/useTabHistory.ts:130-149 | the callback is the navigate step and keeps the invariant; a settled call shows the tab asked for if it is known, else the default |
| TabAppModel.TabApp.Traverse | frontend/src/hooks/useTabHistory.ts:93-116 | both pop listeners and the hashchange listener together are the traversal step |
| TabAppModel.TabApp.Edit | frontend/src/hooks/useTabHistory.ts:105-114 | the listeners a fragment edit runs are the edit step |
| TabAppModel.TabApp.OpenSheet | frontend/src/mobile/MobileKit.tsx:333-338 | the effect is the open step |
| TabAppModel.TabApp.CloseSheet | frontend/src/mobile/MobileKit.tsx:339-344 | the clean-up is the close step, going back only from a marker that was not popped |
| Regex.MatchIsComplete | frontend/src/api/hnbgw.ts:40-44 | the backtracking engine finds a match whenever the text can be split into pieces the items take |
| Regex.OnlyReading | frontend/src/api/hnbgw.ts:40-44 | for patterns whose runs cannot run into the next item there is one reading, and the engine returns it |
| Regex.SearchIsLeftmost | frontend/src/api/hnbgw.ts:42-44 | an unanchored match is the leftmost one |
| HnbList.ParseHnbList | frontend/src/api/hnbgw.ts:36-53 | the index loop returns the records of adjacent line pairs in order |
| HnbList.RecordIff | frontend/src/api/hnbgw.ts:40-50 | a pair of lines gives a record exactly when the head form and, leftmost, the detail form are there, and gives their fields |
| HnbRoundTrip.ParseUndoesPrint | frontend/src/api/hnbgw.ts:26-53 | HNBs printed in the documented two-line format, with any white space between its parts and among any other non-head lines, are parsed back, all and in order (identities without quotes, addresses without their delimiters, numbers with or without leading zeros) |
| HnbRoundTrip.DecimalSpells | frontend/src/api/hnbgw.ts:46-50 | plain decimal numbers are among the spellings the round trip covers |
| LineLog.ChunkingDoesNotMatter | backend/src/index.ts:878-895 | for every way of cutting the text into chunks the log is the trimmed non-blank lines of the whole |
| LineLog.NothingIsLost | backend/src/index.ts:879-885 | between chunks the buffer holds no newline, and finished lines joined with the buffer are the input |
| LineLog.LoggedTextIsTrimmed | backend/src/index.ts:878 | a line logs exactly the text left between the white space at its ends, and nothing exactly when it is all white space |
| LineLog.WhiteSpaceAround | backend/src/index.ts:878 | white space around a line makes no difference |
| LineLog.CarriageReturnsAreDropped | backend/src/index.ts:878-884 | output with Windows line ends is logged like output with plain ones |
| LineLog.PatchLog.OnStdout | backend/src/index.ts:879-885 | the handler feeds its own stream and leaves the other's buffer and lines alone |
| LineLog.PatchLog.OnStderr | backend/src/index.ts:886-892 | the same for the other stream |
| LineLog.PatchLog.OnClose | backend/src/index.ts:893-895 | both unfinished lines are logged |
| Chrony.ParseChronycAge | frontend/src/api/chrony.ts:26-38 | the scan over all matches returns null, the bare number, or the sum of a single left-to-right reading |
| Chrony.FirstMatchIsFirstTerm | frontend/src/api/chrony.ts:30 | what the expression finds is a whole run of digits with a unit letter behind it, it is the leftmost one, and nothing is found exactly when there is none |
| Chrony.MatchesAreTerms | frontend/src/api/chrony.ts:30 | all matches, in order, are the terms of one left-to-right reading that mentions no engine |
| Chrony.TermsReadBack | frontend/src/api/chrony.ts:16-30 | terms written one after the other are read back as those terms |
| Chrony.TermsAppend | frontend/src/api/chrony.ts:29-36 | the terms of a concatenation are the terms of both parts where the first text does not end in a digit |
| Chrony.SumAppend | frontend/src/api/chrony.ts:29-36 | so is the sum |
| Chrony.CompoundAge | frontend/src/api/chrony.ts:16-38 | any compound reads as its total, and as null exactly when the total is zero |
| Chrony.AgeReadsBack | frontend/src/api/chrony.ts:16-38 | every positive number of seconds, written as days, hours, minutes and seconds, is read back |
| Chrony.BareNumberIsSeconds | frontend/src/api/chrony.ts:20-28 | a bare number is that many seconds, zero included, whatever zeros lead it |
| Chrony.OtherTextHasNoAge | frontend/src/api/chrony.ts:20-37 | the empty text, the dash, and text with no unit letter that is not digits alone have no age |
| Chrony.RecentClientsMeaning | frontend/src/api/chrony.ts:58-73 | the list holds exactly the clients with requests whose age is unknown or within the window, newest first with an unknown age counted as zero, clients of one age in listed order |
| Chrony.NarrowingTheWindow | frontend/src/api/chrony.ts:62-73 | filtering a list to a narrower window gives the list for that window |
| Sorting.SortByIff | frontend/src/api/chrony.ts:72 | the sort is the only ordered rearrangement that keeps the order of equal keys |
| HexCodec.H2bUndoesB2h | backend/tools/osmocom/utils.py:57-64 | bytes written as hex are read back |
| HexCodec.B2hUndoesH2b | backend/tools/osmocom/utils.py:57-64 | hex digits are read exactly at even length, and written back in lower case |
| HexCodec.B2hDigits | backend/tools/osmocom/utils.py:62-64 | each byte is written as two lower-case digits, high half first |
| HexCodec.HexDigitsAre | backend/tools/osmocom/utils.py:30-34 | the digits are 0-9, a-f and A-F |
| HexCodec.CaseDoesNotMatter | backend/tools/osmocom/utils.py:57-59 | upper and lower case digits are read alike |
| HexCodec.SpacedBytesAreRead | backend/tools/osmocom/utils.py:57-59 | ASCII white space between bytes is skipped |
| HexCodec.ToBytesUndoesFromBytes | backend/tools/osmocom/utils.py:45-53 | `from_bytes` then `to_bytes` gives the bytes |
| HexCodec.H2iUndoesI2hIff | backend/tools/osmocom/utils.py:67-72 | a list of integers survives hex exactly when all are bytes |
| HexCodec.SwapNibblesTwice | backend/tools/osmocom/utils.py:86-87 | exactly the strings whose pairs are hex digits are accepted, and swapping twice gives them in lower case without an odd last nibble |
| HexCodec.SwapNibblesSwapsBytes | backend/tools/osmocom/utils.py:86-87 | on bytes it swaps the halves of each byte |
| HexCodec.TextSurvivesRpad | backend/tools/osmocom/utils.py:75-91 | `s2h`, `rpad` to any length and `h2s` delete exactly the 0xFF characters |
| HexCodec.TextSurvivesRpadIff | backend/tools/osmocom/utils.py:75-91 | for every length, exactly the text of characters below 0xFF is accepted and comes back unchanged |
| HexCodec.TextSurvivesLpadIff | backend/tools/osmocom/utils.py:75-95 | `lpad` keeps text exactly when it adds an even number of nibbles, nothing, or there is no text |
| HexCodec.S2hWritesCodes | backend/tools/osmocom/utils.py:80-83 | the bytes written are the character codes |
| HexCodec.H2sReadsCodes | backend/tools/osmocom/utils.py:75-77 | the characters read have the bytes as codes, and 0xFF stands for none |
| HexCodec.PaddingMeaning | backend/tools/osmocom/utils.py:90-95 | padding reaches the length asked for with that character alone, on its side, and never cuts |
| HexCodec.IsHexMeaning | backend/tools/osmocom/utils.py:98-111 | a string that passes need not be hex digits: it is, exactly when it holds one byte per two characters |
| HexCodec.IsHexOnDigits | backend/tools/osmocom/utils.py:98-111 | on hex digits it is a question of length only, with a limit of 0 meaning none and a minimum below 2 refusing everything; odd lengths always fail |
| Sites.GroupBySite | frontend/src/api/rfSimulation.ts:558-571 | the single pass with a Map index gives the groups of the one-filter-per-site form |
| Sites.GroupsMeaning | frontend/src/api/rfSimulation.ts:558-571 | a group holds exactly the sectors of its site in input order, under the name its first sector gives |
| Sites.SiteIdsMeaning | frontend/src/api/rfSimulation.ts:557-571 | listed site ids are distinct and are exactly those that occur |
| Sites.SiteIdsGrowAtTheEnd | frontend/src/api/rfSimulation.ts:557-571 | first-occurrence order: the ids of any first part of the input come first |
| Sites.SectorsAreConserved | frontend/src/api/rfSimulation.ts:558-571 | sector counts add up to the input length |
| SuciKeys.AnswerUpdatesTable | frontend/src/stores/suci.ts:35-80 | one completion (a generated id being new, a regenerated key keeping its id) keeps the list sorted by distinct ids and is one update of the id table |
| SuciKeys.GenerateStaysOrderedIff | frontend/src/stores/suci.ts:38-43 | a generated key keeps ids distinct exactly when its id is new |
| SuciKeys.AnswersCommute | frontend/src/stores/suci.ts:38-75 | such completions about different ids commute |
| SuciKeys.InterleavingStaysOrdered | frontend/src/stores/suci.ts:35-80 | any interleaving of such completions keeps the list sorted and distinct, with the table's contents |
| SuciKeys.StaysOrderedIff | frontend/src/stores/suci.ts:35-80 | over whole runs, where regenerated keys keep their id: the list is sorted by distinct ids after every completion exactly when every generated id is new on arrival |
| SuciKeys.ExpectedIff | frontend/src/stores/suci.ts:35-80 | whether completions are as expected is decided for each id by its own completions alone |
| SuciKeys.ArrivalOrderDoesNotMatter | frontend/src/stores/suci.ts:35-80 | two arrival orders that bring each id its own completions in the same order leave the same sorted list |
| SuciKeys.SuciStore.FinishGenerate | frontend/src/stores/suci.ts:38-43 | whatever table the store keeps at that moment, it keeps the table with the new key afterwards, sorted by distinct ids exactly when the id is new |
| SuciKeys.SuciStore.FinishRegenerate | frontend/src/stores/suci.ts:54-59 | a regenerated key with the id asked for replaces the one the table holds, and does nothing if it was deleted meanwhile; the invariant stays |
| SuciKeys.SuciStore.FinishDelete | frontend/src/stores/suci.ts:70-75 | the table loses exactly this id; the invariant stays |
| Traffic.Series | frontend/src/mobile/MobileTrafficHistoryPage.tsx:67-78 | strictly increasing timestamps, exactly those of the points, each with the sums of its points |
| Traffic.SeriesIsUnique | frontend/src/mobile/MobileTrafficHistoryPage.tsx:67-78 | there is only one such series |
| Traffic.TrafficIsConserved | frontend/src/mobile/MobileTrafficHistoryPage.tsx:62-78 | total up and total down are conserved |
| Traffic.BarsFit | frontend/src/mobile/MobileTrafficHistoryPage.tsx:80-119 | both bars of a sample together never exceed 100 percent, and neither is below 1 |
| Traffic.SomeBarIsFull | frontend/src/mobile/MobileTrafficHistoryPage.tsx:80-119 | unless all rates are tiny some bar reaches its full share |
| Traffic.FloorIff | frontend/src/mobile/MobileTrafficHistoryPage.tsx:80-119 | the scale is the highest rate or 0.001, and a bar stands at one percent exactly when its share would not be more |
| Traffic.BarsAreProportional | frontend/src/mobile/MobileTrafficHistoryPage.tsx:110-119 | above the floor, bars stand to each other as their rates do, 70 to 30 between down and up |
| Traffic.BarsAreOrdered | frontend/src/mobile/MobileTrafficHistoryPage.tsx:110-119 | a higher rate never gets a lower bar |
| ByteUnits.FmtBytes | frontend/src/mobile/MobileKit.tsx:25-33 | the loop ends in the largest unit that leaves at least one, with the exact amount |
| ByteUnits.ShownInOrder | frontend/src/mobile/MobileKit.tsx:28-32 | unit and amount are ordered lexicographically exactly as the sizes are |
| ByteUnits.UnitShown | frontend/src/mobile/MobileKit.tsx:25-33 | which sizes are shown in KB, MB, GB, TB and PB, and that 1024 or more of a unit is shown only from 1024 PB on |
| AddressBox.BoxRoundTrip | frontend/src/pages/BindPage.tsx:47-71 | splitting the joined text of any list of addresses returns the list |
| AddressBox.AddressesIff | frontend/src/pages/BindPage.tsx:70-71 | for any typed text, the list read is the only one the text can be taken apart into: these non-empty texts in this order, with separators and nothing else around them |
| AddressBox.UsualSeparators | frontend/src/pages/BindPage.tsx:70-71 | visible texts without commas, separated by commas, blanks, tabs or line breaks, are read back |
| AddressBox.BoxTextIsSpaced | frontend/src/pages/BindPage.tsx:47-61 | the box shows the addresses with a comma and a blank between them |
| AddressBox.Ipv4Iff | frontend/src/pages/BindPage.tsx:72-73 | the test takes exactly four numbers of one to three digits with dots between them |
| AddressBox.SavedIff | frontend/src/pages/BindPage.tsx:70-76 | a list is sent exactly when the box reads as it, it is not empty, and every address passes |
| AddressBox.ReloadKeepsBox | frontend/src/pages/BindPage.tsx:47-90 | showing what was read and reading it again changes nothing, and is saved or refused alike |
| Reboot.WaitForWebuiReboot | backend/tools/femto_provision.py:139-166 | the outcome and the number of probes are what the answers call for |
| Reboot.WaitForWebuiUp | backend/tools/femto_provision.py:123-136 | returns at the first ready answer, or after all tries when there is none |
| Reboot.BackUpIff | backend/tools/femto_provision.py:143-166 | "back up" is reported exactly when an offline answer is followed in time by a ready one, within twice the tries of one phase |
| Reboot.OutcomeMeaning | backend/tools/femto_provision.py:139-166 | each outcome in terms of the answers: any failure or status but 200 is offline, and only status 200 with the marker is back |
| Reboot.OneOutcome | backend/tools/femto_provision.py:143-166 | the answers call for one outcome only |
| Reboot.TriesIff | backend/tools/femto_provision.py:145-159 | a loop makes exactly timeout over interval tries, rounded up |
| LogWindow.WindowIsEndOfHistory | frontend/src/hooks/useLogStream.ts:57-71 | with a positive limit the window is the end of the latest accepted batch followed by every entry accepted since |
| LogWindow.StepMeaning | frontend/src/hooks/useLogStream.ts:57-71 | a new entry goes to the end and the oldest leave, a batch replaces everything, and paused or other messages change nothing |
| LogWindow.HistoryMeaning | frontend/src/hooks/useLogStream.ts:57-71 | the history grows by each accepted entry and starts afresh with each accepted batch and clear |
| LogWindow.LimitHoldsIff | frontend/src/hooks/useLogStream.ts:64-69 | the limit holds over all runs exactly when it is positive; a limit of zero drops nothing |
| LogWindow.LogStream.OnMessage | frontend/src/hooks/useLogStream.ts:57-71 | the handler takes one step of the window |

## Left out

- TabHistory.EveryRunIsSynced: entries of other documents and leaving the app, sheets whose `onClose` changes while open, two sheets at once, and the tab bar's own sheet are not modelled; fragment edits without an id are covered by `EditSyncedIff` instead.
- SheetDiscipline.BackIsNeverSilent: not for runs with a stranding step or an unsettled call, after which a silent back press is possible (`OrderlyIff` says that only these spoil a run).
- TabIds.SpelledIdReadsBack: percent-escapes of non-ASCII characters are folded into "no id", since the character test refuses them anyway.
- HnbList.ParseHnbList: numbers are unbounded, where JavaScript rounds above 2^53.
- Chrony.ParseChronycAge: numbers are unbounded here too.
- Chrony.RecentClientsMeaning: the default window of 3600 seconds is an argument here.
- LineLog.ChunkingDoesNotMatter: a chunk is text; a multi-byte character cut in two by a chunk boundary is not modelled.
- LineLog.PatchLog.OnStdout: the real log does not keep which stream a line came from; the model does, to state both streams' results.
- SuciKeys.InterleavingStaysOrdered: not for `fetchKeys`, which takes over the server's list as it is; `getNextId` is left out, and nothing is claimed of `loading` while several requests are under way, since the first answer clears it.
- Traffic.Series: timestamps are a total order and rates are exact, so locale collation and floating-point rounding are not covered.
- ByteUnits.FmtBytes: exact amounts; the rounding of the printed digits is left out.
- Reboot.WaitForWebuiReboot: the wall clock between probes, intervals that are not positive, and the dry run, which does nothing.
- LogWindow.WindowIsEndOfHistory: a limit that changes during a run, connecting and subscribing.
- HexCodec: `hexstr` equality and indexing, `auto_int`, `is_decimal`, JSON encoding.
- `normalizeAzimuthDeg`, `signedAzimuthDeg`, `applyAntenna`, `nextSectorLabel`, `sanitize_mac`, `fmtMbps`, `fmtAgo`: would add only easy members.
- HTTP, SSH, WebSocket and page code, toasts and timers: no algorithm in view.
