# Audio-To-Text: a verified model of the plugin's core

Audio-To-Text is an Obsidian plugin. It finds audio embeds such as `![[meeting.mp3]]` in a note and
sends each audio file to a speech-to-text service. It then writes the transcript into the active note
or into a new note beside it. The repository holds two versions of the plugin: `main.ts`, and a
second version, `main.js`, with its own copy of the selection modal. This project models the parts of both that
are plain text and list processing:

- the audio-embed link extractor, a global-regex `exec` loop (`LinkExtractor`; both versions carry
  the same code);
- `isSupportedAudioFile`, `searchFileByName`, and how each version resolves a link to a file
  (`VaultLookup`);
- `transcribeSingleAudioFile` in both versions, as an outcome of the resolved file and its transcript,
  together with the new-note command and the file-menu path (`Transcription`);
- the block appended to the active note, the single-append and batch-append commands, and the
  dispatch on the number of extracted links (`NoteContent`);
- `createTranscriptionNoteWithUniqueName`: the unique-path loop over clock readings, the timestamp
  sanitiser, and the note body (`NewNote`);
- `loadSettings` in both versions, and the file-menu item's choice between a new note and the active
  note (`Settings`);
- `AudioFileSelectionModal` as a class whose checkbox rows are a `seq<bool>` field (`SelectionModal`).

Host services are inputs:

- the vault is a map of entries and a list of files;
- `normalizePath` is a function parameter;
- `adapter.exists` is a fixed set of paths;
- `new Date().toISOString()` is a sequence of readings;
- the read-and-transcribe pipeline is a function from file to transcript, where `""` means failure.

Two behaviours of the code are easy to miss, and the model keeps both:

- The embed pattern has no `i` flag, so `![[A.MP3]]` is not extracted, although
  `isSupportedAudioFile` ignores case.
- The main.js fallback is a suffix match on the path (`endsWith`), not a match on the file name:
  `a/long-song.mp3` answers a search for `song.mp3`.

## Model

| member | source | states |
|---|---|---|
| `LinkExtractor.AudioLinkTextIsAlternation` | main.ts:182 | the run test is exactly "ends in `.` plus one of mp3/webm/wav/ogg/m4a, with a character before the dot" |
| `LinkExtractor.Scan` | main.ts:185-187 | each match found from `lastIndex == i` on starts at or after `i` and ends inside the text |
| `LinkExtractor.ScanLinksSound` | main.ts:182 | every group the scan emits is an audio link text without `]` |
| `LinkExtractor.MatchAt` | main.ts:182 | a match at `i` starts at `i` and ends inside the text |
| `LinkExtractor.MatchAtSound` | main.ts:182 | a match is the text `![[link]]` with `link` an audio link text free of `]` |
| `LinkExtractor.MatchAtExactly` | main.ts:182 | the pattern matches at `i` with group `link` iff `![[link]]` stands there, `link` has no `]` and is an audio link text |
| `LinkExtractor.Exec` | main.ts:185 | one `regex.exec` from `lastIndex`: null iff no match remains; otherwise the first match at or after `lastIndex`, and the rest of the scan resumes after its `]]` |
| `LinkExtractor.ExtractAudioFileLinks` | main.ts:181-189 | the `exec`/`push` loop returns exactly the groups of the left-to-right scan |
| `LinkExtractor.ScanSound` | main.js:249-257 | every emitted match lies at or after the start index, fits in the text, and is the pattern's match at its position |
| `LinkExtractor.ScanOrdered` | main.js:253-255 | emitted matches are in text order and do not overlap |
| `LinkExtractor.ScanComplete` | main.ts:185-187 | every position where the pattern matches is covered by one emitted match |
| `LinkExtractor.ScanEmptyIff` | main.ts:185 | the scan is empty iff the pattern matches nowhere from the start index on |
| `LinkExtractor.ScanTakesEmbed` | main.ts:185-186 | an audio embed at the scan position is taken whole, and scanning resumes after its `]]` |
| `LinkExtractor.ScanSkips` | main.ts:185 | indices without `![[` contribute nothing |
| `LinkExtractor.MatchAtShift` | main.ts:182 | the match at an index depends only on the text from that index on |
| `LinkExtractor.ScanShift` | main.js:253 | the links found from an index depend only on the text from that index on |
| `LinkExtractor.ScanSuffix` | main.ts:184-187 | the links found from index `d` are the links of `s[d..]` alone |
| `LinkExtractor.LinksOfLeadingEmbed` | main.ts:186 | a leading audio embed contributes its link first, then the rest is scanned on its own |
| `LinkExtractor.LinksSkipLeadingChar` | main.ts:185 | a leading character other than `!` contributes nothing |
| `LinkExtractor.ExtractionKeepsOrderAndDuplicates` | main.ts:183-188 | three embeds `a`, `b`, `a` separated by spaces give `[a, b, a]`: order and duplicates are kept |
| `LinkExtractor.ExtractionExample` | main.js:249-257 | `![[a.mp3]] ![[b.wav]] ![[a.mp3]]` gives `["a.mp3", "b.wav", "a.mp3"]` |
| `LinkExtractor.NestedMarkerExample` | main.ts:182 | the group may contain `![[`: `![[![[a.mp3]]` gives `["![[a.mp3"]` |
| `LinkExtractor.PdfEmbedExample` | main.ts:182 | `![[doc.pdf]]` gives nothing |
| `LinkExtractor.UpperCaseExtensionExample` | main.js:250 | `![[A.MP3]]` gives nothing: the pattern is case-sensitive |
| `LinkExtractor.BareExtensionExample` | main.ts:182 | `![[.mp3]]` gives nothing: a character must precede the dot |
| `LinkExtractor.PlainLinkExample` | main.ts:182 | `[[audio.mp3]]` without `!` gives nothing |
| `LinkExtractor.LinksSkipLeadingNonAudioEmbed` | main.ts:182-188 | a leading embed whose text has no `]`, no `!` and is not an audio link contributes nothing; the rest of the content is scanned on its own |
| `LinkExtractor.NonAudioEmbedsYieldNothing` | main.ts:182-188 | two such embeds separated by a space give nothing |
| `LinkExtractor.NonAudioEmbedsExample` | main.ts:182 | `![[a.pdf]] ![[b.png]]` gives nothing |
| `LinkExtractor.OnlyEmbedNotAudio` | main.ts:182-188 | a lone embed whose text has no `]`, no `!` and is not an audio link gives nothing |
| `LinkExtractor.AudioFileLinks` | main.ts:181-189 | every extracted link is non-empty, has no `]` and ends in `.` plus a lower-case audio extension after at least one character |
| `LinkExtractor.ExtractedLinksSound` | main.ts:181-189 | each extracted link is non-empty, has no `]`, ends in a lower-case audio extension after at least one character, and `![[link]]` stands in the content at its position |
| `LinkExtractor.ExtractedLinksInOrder` | main.js:249-257 | the embeds behind the extracted links appear left to right without overlapping |
| `LinkExtractor.NoLinksIff` | main.ts:181-189 | the extraction is empty iff the pattern matches nowhere in the content |
| `LinkExtractor.NoBangNoLinks` | main.ts:182 | content without `!` (a bare `[[x.mp3]]` link, say) gives nothing |
| `LinkExtractor.NoEmbedMarkerNoLinks` | main.js:250-256 | content in which `![[` never occurs, empty content included, gives nothing |
| `VaultLookup.IsSupportedAudioFile` | main.ts:196-199 | a supported extension has three or four characters, and a link ending in `.` plus its lower-cased form is an audio link text for the embed pattern |
| `VaultLookup.AsciiLower` | main.ts:198 | lower-casing keeps the length and lower-cases ASCII letters one by one |
| `VaultLookup.SupportIgnoresCase` | main.ts:196-199 | two extensions that differ only in letter case are both supported or both not |
| `VaultLookup.SupportedIff` | main.js:264-267 | supported iff the extension lower-cases, character by character, to one of the five |
| `VaultLookup.SupportedExamples` | main.ts:197-198 | `mp3`, `MP3`, `M4a` are supported; `flac`, the empty extension and `.mp3` are not |
| `VaultLookup.FirstSuffixMatch` | main.ts:193 | the index found is the first whose path ends with the name, or the end of the list |
| `VaultLookup.SearchFileByName` | main.ts:191-194 | none iff no path ends with the name; otherwise the first such file in enumeration order |
| `VaultLookup.SearchIsSuffixMatch` | main.js:259-262 | `a/long-song.mp3` answers a search for `song.mp3` ahead of `b/song.mp3`; a missing name finds nothing |
| `VaultLookup.ResolveTs` | main.ts:109-116 | main.ts resolves a link iff a file, not a folder, sits at that exact path, and then to that entry; in a consistent vault the file's path is the link |
| `VaultLookup.ResolveJs` | main.js:165-175 | in a consistent vault a file found by main.js has a path ending with the link; a folder is found only at the exact path |
| `VaultLookup.ResolveJsOrder` | main.js:165-175 | main.js uses an exact path hit first, else the first suffix match; nothing iff both miss |
| `VaultLookup.ResolveJsExtendsTs` | main.js:165-169 | whatever main.ts resolves, main.js resolves to the same file |
| `VaultLookup.ResolutionExample` | main.js:167-169 | with only `folder/song.mp3`, main.js finds `song.mp3` through the search and main.ts does not |
| `Transcription.TranscribeSingleTs` | main.ts:107-133 | main.ts finds nothing iff no file sits at the path; a returned text or a requested note carries a non-empty transcript, returned only with `returnText` and a note only without it |
| `Transcription.TranscribeSingleJs` | main.js:163-197 | main.js as written finds nothing iff both lookups miss, never requests a note, and returns non-empty text only with `returnText` |
| `Transcription.TranscribeSingleJsIntended` | main.js:163-197 | corrected main.js finds nothing iff both lookups miss; text is returned only with `returnText` and a note requested only without it, both with a non-empty transcript |
| `Transcription.ReturnValue` | main.ts:119-122 | the awaited value is non-empty iff the transcript was returned and is non-empty |
| `Transcription.TsOutcomes` | main.ts:107-133 | main.ts: not found iff no file at the path; otherwise failed iff the transcript is empty, returned iff asked for, else a note named after the file |
| `Transcription.TsReturnValue` | main.ts:119-122 | with `returnText` the value is the file's transcript when one comes back; without it, nothing |
| `Transcription.JsNotFoundIff` | main.js:171-175 | main.js transcribes nothing and returns nothing iff neither lookup finds anything |
| `Transcription.JsReturnValue` | main.js:181-184 | with `returnText`, main.js returns the transcript of the file the lookup found |
| `Transcription.JsIntendedExtendsTs` | main.js:163-197 | where main.ts finds the file, corrected main.js does exactly what main.ts does |
| `Transcription.JsNeverRequestsNote` | main.js:186 | as written, main.js never reaches a note writer: a non-empty transcript without `returnText` ends in the error notice |
| `Transcription.JsNewNoteCounterexample` | main.js:183-188 | `folder/song.mp3` transcribing to `hello`: main.js as written reports an error; corrected main.js and main.ts ask for the note |
| `Transcription.JsIntendedRequestsNote` | main.js:186-187 | corrected main.js asks for a note named after the file found, by path or by search |
| `Transcription.JsAgreesWhenReturningText` | main.js:183-185 | the two main.js versions differ only on the new-note path |
| `Transcription.NewNoteCommandJs` | main.js:117-125 | the new-note command as written yields one outcome per link |
| `Transcription.NewNoteCommandJsIntended` | main.js:117-125 | the corrected new-note command yields one outcome per link |
| `Transcription.NewNoteCommandJsWritesNothing` | main.js:120-123 | the main.js new-note command never writes a note; corrected, each found link with a transcript asks for one |
| `Transcription.TranscribeAudioFile` | main.ts:165-179 | the file-menu transcription either fails or asks for a note; it asks iff the transcript is non-empty, with that transcript and the file's name |
| `Transcription.MenuTranscriptionIsLinkTranscription` | main.ts:165-179 | the file-menu transcription acts as transcribing the link to the file's path |
| `NoteContent.TranscriptionBlock` | main.ts:144 | the block is a blank line, `### Transcription for ` and the title, a line break, then the transcript, and nothing else |
| `NoteContent.ParseBlockRoundTrip` | main.ts:159 | a block whose title has no line break parses back to its title and transcript |
| `NoteContent.BlockInjective` | main.js:205 | for titles without a line break, a block determines its title and transcript |
| `NoteContent.AppendTranscription` | main.ts:143-145 | a non-empty transcript keeps the old content as a prefix and appends exactly the block; an empty one leaves the note unwritten |
| `NoteContent.AddSingleTs` | main.ts:135-148 | no active file is reported; otherwise the note is modified iff the transcript is non-empty, to the old content plus the link's block |
| `NoteContent.AddSingleJs` | main.js:199-209 | without an active file main.js throws; otherwise it acts as main.ts |
| `NoteContent.AddFromFile` | main.ts:150-163 | the file is transcribed by its path and its block is headed by its name |
| `NoteContent.AccumulateTranscriptions` | main.ts:94-101 | the batch loop ends with the original text followed by the blocks of the selected links, in selection order |
| `NoteContent.BatchStep` | main.js:151-156 | one loop turn appends the next link's block, or nothing for an empty transcript |
| `NoteContent.BlocksAppend` | main.ts:95-100 | the batch over two lists of links is the first batch followed by the second |
| `NoteContent.BatchOfOneIsSingleAppend` | main.ts:144 | a batch of one link appends what the single command appends |
| `NoteContent.BlocksSkipEmpty` | main.ts:97-99 | a link with an empty transcript contributes nothing |
| `NoteContent.BlocksAllEmpty` | main.js:151-158 | with no transcript back, the note is written with its text unchanged |
| `NoteContent.BlockStandsInOrder` | main.js:149-158 | each link with a transcript has its block between the blocks before it and after it |
| `NoteContent.AccumulationKeepsOriginal` | main.ts:94 | the original text remains a prefix of the result |
| `NoteContent.DispatchLinks` | main.ts:75-92 | no active file, no links, exactly one link handled directly, or the modal over every extracted link |
| `NoteContent.AddBatchToActiveNote` | main.ts:90-103 | after the modal, the note is set to its text plus the blocks of the submitted links |
| `NoteContent.TsBatchSkipsUnresolved` | main.ts:96-99 | in main.ts a selected link that is not a file path adds nothing to the batch |
| `NoteContent.JsBlockAgreesWithTs` | main.js:152-155 | a link main.ts can transcribe adds the same block in main.js |
| `NewNote.SanitizeTimestamp` | main.ts:242 | sanitising keeps the length |
| `NewNote.SanitizeAt` | main.ts:242 | each character is replaced by a dash if it is `:` or `.`, and kept otherwise |
| `NewNote.SanitizedHasNoSeparators` | main.js:314 | the sanitised timestamp has no `:` and no `.`; other characters keep their place |
| `NewNote.SanitizeIdempotent` | main.ts:242 | sanitising twice is sanitising once |
| `NewNote.SanitizeAppend` | main.ts:242 | sanitising distributes over concatenation |
| `NewNote.SanitizeIsoReading` | main.ts:242 | an ISO reading `dateThh:mm:ss.sssZ` becomes `dateThh-mm-ss-sssZ` |
| `NewNote.Candidates` | main.ts:239-245 | the paths tried: `parent/audio Transcription.md` first, then one timestamped path per clock reading |
| `NewNote.FirstFresh` | main.ts:241 | the index of the first candidate that does not exist, with every earlier one existing |
| `NewNote.UniqueNotePath` | main.ts:239-245 | the loop returns a path that does not exist: the first fresh candidate; with no reading taken it is the plain path |
| `NewNote.TimestampedPathIsNotPlain` | main.js:313-316 | when `normalizePath` is injective, a timestamped path is never the plain one |
| `NewNote.SameReadingSamePath` | main.js:314-316 | equal readings give equal paths, so only a moving clock gets the loop out |
| `NewNote.PlainTakenExample` | main.js:309-317 | when `normalizePath` is injective and the plain path is taken, the first reading names the note |
| `NewNote.NewNoteBody` | main.ts:247 | the note body is the block appended to the active note, without its leading blank line |
| `NewNote.NewNoteBodyIsBlock` | main.ts:247 | for an audio name without a line break, the note body reads back as that name and the transcript |
| `NewNote.CreateTranscriptionNoteTs` | main.ts:232-248 | no active file or parent is reported; otherwise the note is created at the first fresh path, with the heading and the transcript |
| `NewNote.CreateTranscriptionNoteJs` | main.js:307-321 | main.js throws without an active file or parent; otherwise it creates the same note |
| `Settings.LoadSettings` | main.ts:262-264 | saved properties override the defaults, unsaved defaults stay, extra saved properties are kept |
| `Settings.NothingSavedGivesDefaults` | main.js:336-342 | with nothing saved: an empty key; the file menu writes a new note in main.js and appends in main.ts |
| `Settings.MenuTranscribesToNewNote` | main.ts:41-45 | with no saved choice the menu appends to the active note; a saved `true` writes a new note; a saved `false` or `""` appends |
| `Settings.SavedChoiceWinsInBothVersions` | main.ts:41-45 | a saved `transcribeToNewNote` decides the file-menu choice the same way in both versions |
| `Settings.VersionsDifferOnlyInTheDefaultChoice` | main.js:337-340 | the two versions' loaded settings differ only in an unsaved `transcribeToNewNote` |
| `Settings.LoadAfterSaveIsIdentity` | main.ts:266-268 | loading what was saved gives the same settings again |
| `SelectionModal.SelectedFiles` | src/modal.ts:36-40 | no more files than rows are emitted |
| `SelectionModal.CheckedIndices` | src/modal.ts:36-37 | the checked rows, in increasing index order |
| `SelectionModal.CheckedIndicesComplete` | src/modal.ts:37 | every checked row is listed |
| `SelectionModal.SelectedAreCheckedRows` | src/modal.ts:34-40 | submit emits exactly `audioFiles[i]` for the checked rows, in index order, duplicates kept |
| `SelectionModal.AllCheckedSelectsAll` | src/modal.ts:20-23 | all rows checked: all files |
| `SelectionModal.NoneCheckedSelectsNone` | main.js:29-36 | no row checked: nothing |
| `SelectionModal.SelectedFilesAppend` | src/modal.ts:36 | selection over rows split in two is the selection of each part in turn |
| `SelectionModal.AllButOneSelectsTheOthers` | main.js:32-36 | every row but row `k` checked: every file but the k-th |
| `SelectionModal.AudioFileSelectionModal.constructor` | src/modal.ts:8-12 | the modal keeps its files, shows nothing and has not called `onSelect` |
| `SelectionModal.AudioFileSelectionModal.Open` | src/modal.ts:26-30 | opening shows one unchecked row per audio file |
| `SelectionModal.AudioFileSelectionModal.ToggleAll` | src/modal.ts:20-23 | select-all sets every row to the box's value and keeps the number of rows |
| `SelectionModal.AudioFileSelectionModal.ToggleRow` | src/modal.ts:28 | a click changes one row only |
| `SelectionModal.AudioFileSelectionModal.Submit` | src/modal.ts:33-43 | the checked rows' files go to `onSelect` once, then the modal closes |
| `SelectionModal.AudioFileSelectionModal.Close` | src/modal.ts:46-49 | closing empties the content and does not call `onSelect` |
| `SelectionModal.SelectAllAndSubmit` | src/modal.ts:20-42 | select all and submit: every file, handed over once |
| `SelectionModal.SelectAllButOne` | main.js:16-38 | select all, clear one row, submit: every file but that one |
| `SelectionModal.OpenThenDismiss` | main.js:42-45 | opening and closing without submitting never calls `onSelect` |

## Left out

- `transcribeAudio` is left out. It is the HTTP request to the transcription service (main.ts:201-230, main.js:269-305). Together with `vault.readBinary`, it becomes the `transcribe` parameter, where `""` stands for each failure it reports.
- Host calls are inputs or outputs, not behaviour:
  - vault `read`, `modify`, `create`, `getFiles` and `getAbstractFileByPath`;
  - the adapter's `exists`;
  - workspace leaves and `openFile`;
  - `Notice` and `console`;
  - `loadData` and `saveData`.
- A `readBinary` that is handed a folder (main.js:177) is assumed to reject. The model treats that as an error caught by the `catch`.
- A failure of `vault.create` is not modelled, nor is the branch that cannot open the new note.
- Transcription.TsOutcomes: a rejection by a host call is not modelled, so main.ts never ends in its `catch` (main.ts:129-132) in the model. Such rejections include `readBinary` (main.ts:117), `adapter.exists` (main.ts:241, awaited through main.ts:123) and `vault.read`.
- `normalizePath` is an arbitrary function parameter. Only `NewNote.TimestampedPathIsNotPlain` and `NewNote.PlainTakenExample` assume more: that it is injective.
- `new Date().toISOString()` is a sequence of readings supplied as input.
- NewNote.UniqueNotePath requires that some candidate path is fresh. The source's loop has no retry cap: if the clock reading never yields a fresh path, it never ends.
- `adapter.exists` does not change while the loop runs.
- `VaultLookup.AsciiLower` lower-cases ASCII letters only. JavaScript's `toLowerCase` is Unicode-aware.
- `NoteContent.AccumulateTranscriptions` gives each link a single transcript through `transcriptOf`. A link selected twice therefore gets the same transcript both times, where the service could answer differently.
- Asynchrony is not modelled. This includes the interleaving of awaited calls and the un-awaited `forEach` fan-out (main.ts:68-70, main.js:121-123). Each call is taken to complete on its own.
- `SelectionModal.AudioFileSelectionModal.Open` requires a closed modal. Opening a modal that is already open is a host concern the plugin never triggers.
- The `onSelect` callback is recorded in `selections` rather than run.
- The file-menu filter is not modelled (main.ts:35-49, main.js:83-97). That covers the `TFile` test in main.ts and, in main.js, `file.extension` on a folder. `isSupportedAudioFile` itself is modelled.
- Outside the modelled core:
  - the command registrations and their `checkCallback`;
  - the settings tab (src/settings.ts, main.js:354-387);
  - src/interfaces.ts, which only declares types;
  - `onunload`.
- Embed splicing, tags, post-processing and back-links are not implemented by the code, so they are not modelled.

## Findings

| source | as written | input that shows it | evidently intended | confidence | as-written member | corrected member |
|---|---|---|---|---|---|---|
| main.js:186 | the new-note path calls `this.createTranscriptionNote`, which main.js never defines; the `TypeError` is caught and only the error notice appears | vault with `folder/song.mp3`, transcript `hello`, command "Add Transcription to New Notes" on `![[folder/song.mp3]]` | call `createTranscriptionNoteWithUniqueName` (main.js:307), as main.ts:123 does | not executed | `Transcription.JsNeverRequestsNote` | `Transcription.JsIntendedRequestsNote` |
