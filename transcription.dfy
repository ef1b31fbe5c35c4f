/**
 * `transcribeSingleAudioFile(link, returnText)` in its two versions.
 *
 * Reading the audio and the HTTP transcription are one abstract function `transcribe` from the
 * resolved file to the transcript, with `""` standing for every failure `transcribeAudio` reports
 * (no API key, a failed request, an unreachable API). What the call leaves behind is an `Outcome`:
 * the notice it shows, whether it returns the transcript, or whether it asks for a new note.
 */
module Transcription {
  import opened Wrappers
  import opened VaultLookup

  datatype Outcome =
    | NotFound                                       // "Audio file not found", returns undefined
    | Failed                                         // empty transcript: "Transcription failed"
    | Returned(text: string)                         // `returnText`: the transcript is returned
    | NoteRequested(text: string, audioFileName: string)  // the new-note writer is called
    | ErrorCaught                                    // an exception reached the `catch`

  /** What the caller sees as the awaited value; `undefined` is falsy, like `""`. */
  function ReturnValue(o: Outcome): (r: string)
    ensures r != "" <==> o.Returned? && o.text != ""
    ensures o.Returned? ==> r == o.text
  {
    if o.Returned? then o.text else ""
  }

  /** After a file has been resolved, both versions branch on the transcript and on `returnText`;
      `createNote` is what the new-note branch does. */
  function AfterResolution(f: VaultFile, returnText: bool, transcribe: VaultFile -> string,
                           createNote: (string, string) -> Outcome): Outcome
  {
    var text := transcribe(f);
    if text == "" then Failed
    else if returnText then Returned(text)
    else createNote(text, f.name)
  }

  /** main.ts: only a file at the exact path is transcribed. A transcript is returned only when it
      was asked for and a note requested only when it was not, and neither happens with an empty
      transcript. */
  function TranscribeSingleTs(v: Vault, link: string, returnText: bool, transcribe: VaultFile -> string): (o: Outcome)
    ensures o.Returned? ==> returnText && o.text != ""
    ensures o.NoteRequested? ==> !returnText && o.text != ""
    ensures o.NotFound? <==> ResolveTs(v, link).None?
  {
    match ResolveTs(v, link)
    case None => NotFound
    case Some(f) => AfterResolution(f, returnText, transcribe, (t, n) => NoteRequested(t, n))
  }

  /** main.js as written. A folder at the exact path is handed to `readBinary`, which rejects it.
      The new-note branch calls `this.createTranscriptionNote`, which main.js does not define: the
      call throws a `TypeError` and the `catch` reports an error. */
  function TranscribeSingleJs(v: Vault, link: string, returnText: bool, transcribe: VaultFile -> string): (o: Outcome)
    ensures !o.NoteRequested?
    ensures o.Returned? ==> returnText && o.text != ""
    ensures o.NotFound? <==> ResolveJs(v, link).None?
  {
    match ResolveJs(v, link)
    case None => NotFound
    case Some(Folder(_)) => ErrorCaught
    case Some(File(f)) => AfterResolution(f, returnText, transcribe, (t, n) => ErrorCaught)
  }

  /** main.js with the new-note branch calling `createTranscriptionNoteWithUniqueName`, the writer
      main.js does define and that main.ts calls at the same point. */
  function TranscribeSingleJsIntended(v: Vault, link: string, returnText: bool, transcribe: VaultFile -> string): (o: Outcome)
    ensures o.Returned? ==> returnText && o.text != ""
    ensures o.NoteRequested? ==> !returnText && o.text != ""
    ensures o.NotFound? <==> ResolveJs(v, link).None?
  {
    match ResolveJs(v, link)
    case None => NotFound
    case Some(Folder(_)) => ErrorCaught
    case Some(File(f)) => AfterResolution(f, returnText, transcribe, (t, n) => NoteRequested(t, n))
  }

  // ---------------------------------------------------------------------------------------------
  // What each version does

  /** main.ts: not found exactly when no file sits at the path; otherwise the transcript decides, and
      a new note is named after the file the link resolved to. */
  lemma TsOutcomes(v: Vault, link: string, returnText: bool, transcribe: VaultFile -> string)
    ensures var o := TranscribeSingleTs(v, link, returnText, transcribe);
      && (o.NotFound? <==> !(link in v.entries && v.entries[link].File?))
      && (!o.NotFound? ==> var f := v.entries[link].file;
           && (o.Failed? <==> transcribe(f) == "")
           && (o.Returned? <==> transcribe(f) != "" && returnText)
           && (o.NoteRequested? <==> transcribe(f) != "" && !returnText)
           && (o.Returned? ==> o.text == transcribe(f))
           && (o.NoteRequested? ==> o == NoteRequested(transcribe(f), f.name)))
      && !o.ErrorCaught?
  {
  }

  /** The value main.ts returns is non-empty exactly when the text was asked for, a file sits at
      the path, and its transcript is non-empty; it is then that transcript. */
  lemma TsReturnValue(v: Vault, link: string, transcribe: VaultFile -> string)
    ensures var r := ReturnValue(TranscribeSingleTs(v, link, true, transcribe));
      && (r != "" <==> link in v.entries && v.entries[link].File? && transcribe(v.entries[link].file) != "")
      && (r != "" ==> r == transcribe(v.entries[link].file))
    ensures ReturnValue(TranscribeSingleTs(v, link, false, transcribe)) == ""
  {
    TsOutcomes(v, link, true, transcribe);
    TsOutcomes(v, link, false, transcribe);
  }

  /** main.js: nothing is transcribed, and nothing is returned, exactly when neither the path nor
      the suffix search finds anything. */
  lemma JsNotFoundIff(v: Vault, link: string, returnText: bool, transcribe: VaultFile -> string)
    ensures TranscribeSingleJs(v, link, returnText, transcribe).NotFound? <==>
      link !in v.entries && forall j :: 0 <= j < |v.files| ==> !EndsWith(v.files[j].path, link)
    ensures TranscribeSingleJs(v, link, returnText, transcribe).NotFound? ==>
      ReturnValue(TranscribeSingleJs(v, link, returnText, transcribe)) == ""
  {
    ResolveJsOrder(v, link);
  }

  /** main.js with `returnText`: the value is the transcript of the resolved file. */
  lemma JsReturnValue(v: Vault, link: string, transcribe: VaultFile -> string)
    ensures var r := ReturnValue(TranscribeSingleJs(v, link, true, transcribe));
      && (r != "" <==> ResolveJs(v, link).Some? && ResolveJs(v, link).value.File?
                       && transcribe(ResolveJs(v, link).value.file) != "")
      && (r != "" ==> r == transcribe(ResolveJs(v, link).value.file))
  {
  }

  /** Whatever main.ts transcribes, corrected main.js transcribes the same way. */
  lemma JsIntendedExtendsTs(v: Vault, link: string, returnText: bool, transcribe: VaultFile -> string)
    requires ResolveTs(v, link).Some?
    ensures TranscribeSingleJsIntended(v, link, returnText, transcribe) == TranscribeSingleTs(v, link, returnText, transcribe)
  {
    ResolveJsExtendsTs(v, link);
  }

  // ---------------------------------------------------------------------------------------------
  // The undefined `createTranscriptionNote` in main.js

  /** As written, main.js never gets to the new-note writer: a non-empty transcript on the new-note
      path ends in the error notice. */
  lemma JsNeverRequestsNote(v: Vault, link: string, returnText: bool, transcribe: VaultFile -> string)
    ensures !TranscribeSingleJs(v, link, returnText, transcribe).NoteRequested?
    ensures !returnText && ResolveJs(v, link).Some? && ResolveJs(v, link).value.File?
            && transcribe(ResolveJs(v, link).value.file) != "" ==>
      TranscribeSingleJs(v, link, returnText, transcribe) == ErrorCaught
  {
  }

  /** A concrete case: `folder/song.mp3` transcribes to `hello`, and the new-note command fails in
      main.js as written, where the corrected version and main.ts both ask for the note. */
  lemma JsNewNoteCounterexample(v: Vault, transcribe: VaultFile -> string)
    requires v == Vault(map["folder/song.mp3" := File(VaultFile("folder/song.mp3", "song.mp3", "mp3"))],
                        [VaultFile("folder/song.mp3", "song.mp3", "mp3")])
    requires transcribe(VaultFile("folder/song.mp3", "song.mp3", "mp3")) == "hello"
    ensures TranscribeSingleJs(v, "folder/song.mp3", false, transcribe) == ErrorCaught
    ensures TranscribeSingleJsIntended(v, "folder/song.mp3", false, transcribe) == NoteRequested("hello", "song.mp3")
    ensures TranscribeSingleTs(v, "folder/song.mp3", false, transcribe) == NoteRequested("hello", "song.mp3")
  {
  }

  /** Corrected main.js: a resolved file with a non-empty transcript on the new-note path asks for
      a note named after the file that was found, whether by path or by suffix search. */
  lemma JsIntendedRequestsNote(v: Vault, link: string, transcribe: VaultFile -> string)
    requires ResolveJs(v, link).Some? && ResolveJs(v, link).value.File?
    requires transcribe(ResolveJs(v, link).value.file) != ""
    ensures var f := ResolveJs(v, link).value.file;
      TranscribeSingleJsIntended(v, link, false, transcribe) == NoteRequested(transcribe(f), f.name)
  {
  }

  /** The two main.js versions differ only on the new-note path: with `returnText` (the path every
      active-note command takes) they agree. */
  lemma JsAgreesWhenReturningText(v: Vault, link: string, transcribe: VaultFile -> string)
    ensures TranscribeSingleJs(v, link, true, transcribe) == TranscribeSingleJsIntended(v, link, true, transcribe)
    ensures forall returnText: bool :: !TranscribeSingleJsIntended(v, link, returnText, transcribe).NoteRequested? ==>
      TranscribeSingleJs(v, link, returnText, transcribe) == TranscribeSingleJsIntended(v, link, returnText, transcribe)
  {
  }
  // ---------------------------------------------------------------------------------------------
  // The new-note command and the file-menu item

  /** "Add transcription to new note(s)": every link, whether the only one or chosen in the modal,
      goes through `transcribeSingleAudioFile(link)` without `returnText`. */
  function NewNoteCommandJs(v: Vault, links: seq<string>, transcribe: VaultFile -> string): (os: seq<Outcome>)
    ensures |os| == |links|
  {
    seq(|links|, i requires 0 <= i < |links| => TranscribeSingleJs(v, links[i], false, transcribe))
  }

  function NewNoteCommandJsIntended(v: Vault, links: seq<string>, transcribe: VaultFile -> string): (os: seq<Outcome>)
    ensures |os| == |links|
  {
    seq(|links|, i requires 0 <= i < |links| => TranscribeSingleJsIntended(v, links[i], false, transcribe))
  }

  /** As written, the main.js command never writes a note, whatever the vault and the transcripts;
      corrected, each link found with a non-empty transcript asks for one. */
  lemma NewNoteCommandJsWritesNothing(v: Vault, links: seq<string>, transcribe: VaultFile -> string)
    ensures forall i :: 0 <= i < |links| ==> !NewNoteCommandJs(v, links, transcribe)[i].NoteRequested?
    ensures forall i :: 0 <= i < |links| && ResolveJs(v, links[i]).Some? && ResolveJs(v, links[i]).value.File?
                        && transcribe(ResolveJs(v, links[i]).value.file) != "" ==>
      NewNoteCommandJsIntended(v, links, transcribe)[i].NoteRequested?
  {
  }

  /** `transcribeAudioFile`, the file-menu item's new-note path (the same in both versions): the
      file is transcribed directly and the note is requested with `createTranscriptionNoteWithUniqueName`. */
  function TranscribeAudioFile(f: VaultFile, transcribe: VaultFile -> string): (o: Outcome)
    ensures o.Failed? || o.NoteRequested?
    ensures o.NoteRequested? <==> transcribe(f) != ""
    ensures o.NoteRequested? ==> o == NoteRequested(transcribe(f), f.name)
  {
    AfterResolution(f, false, transcribe, (t, n) => NoteRequested(t, n))
  }

  /** Transcribing a file from the menu acts as transcribing the link to its path in main.ts and in
      corrected main.js; in main.js as written an empty transcript is its only agreement. */
  lemma MenuTranscriptionIsLinkTranscription(v: Vault, f: VaultFile, transcribe: VaultFile -> string)
    requires f.path in v.entries && v.entries[f.path] == File(f)
    ensures TranscribeAudioFile(f, transcribe) == TranscribeSingleTs(v, f.path, false, transcribe)
    ensures TranscribeAudioFile(f, transcribe) == TranscribeSingleJsIntended(v, f.path, false, transcribe)
    ensures TranscribeAudioFile(f, transcribe) == TranscribeSingleJs(v, f.path, false, transcribe) <==> transcribe(f) == ""
  {
  }
}
