/**
 * The "add transcription to active note" commands: the block appended per transcript, the single
 * append of `addSingleTranscriptionToActiveNote` and `addTranscriptionToActiveNoteFromFile`, and
 * the batch loop run on the links chosen in the selection modal.
 *
 * The text of the active note is an input (`None` when there is no active file) and the edit is an
 * output: the vault's `read` and `modify` are not modelled beyond that. Transcripts come from
 * `transcriptOf`, the awaited value of `transcribeSingleAudioFile(link, true)` with `undefined`
 * written as `""`.
 */
module NoteContent {
  import opened Wrappers
  import LinkExtractor
  import VaultLookup
  import Transcription

  const TranscriptionHeading: string := "### Transcription for "

  /** The text appended for one transcript: a blank line, the heading naming `title`, a line break,
      and the transcript. */
  function TranscriptionBlock(title: string, text: string): (b: string)
    ensures |b| == 25 + |title| + |text|
    ensures b[..24] == "\n\n" + TranscriptionHeading
    ensures b[24..24 + |title|] == title
    ensures b[24 + |title|] == '\n'
    ensures b[25 + |title|..] == text
  {
    "\n\n" + TranscriptionHeading + title + "\n" + text
  }

  /** Reading a block back: the heading line gives the title, the rest is the transcript. */
  function ParseBlock(b: string): Option<(string, string)>
  {
    if |b| >= 24 && b[..24] == "\n\n" + TranscriptionHeading then
      var e := LinkExtractor.NextIndexOf(b, 24, '\n');
      if e < |b| then Some((b[24..e], b[e + 1..])) else None
    else None
  }

  /** A block whose title has no line break reads back as its title and its transcript. */
  lemma ParseBlockRoundTrip(title: string, text: string)
    requires '\n' !in title
    ensures ParseBlock(TranscriptionBlock(title, text)) == Some((title, text))
  {
    var b := TranscriptionBlock(title, text);
    forall k | 24 <= k < 24 + |title| ensures b[k] != '\n' {
      assert b[k] == b[24..24 + |title|][k - 24] == title[k - 24];
      assert title[k - 24] in title;
    }
    LinkExtractor.NextIndexOfAt(b, 24, 24 + |title|, '\n');
  }

  /** When titles have no line break, a block determines its title and its transcript. */
  lemma BlockInjective(title: string, text: string, title': string, text': string)
    requires '\n' !in title && '\n' !in title'
    requires TranscriptionBlock(title, text) == TranscriptionBlock(title', text')
    ensures title == title' && text == text'
  {
    ParseBlockRoundTrip(title, text);
    ParseBlockRoundTrip(title', text');
  }

  /** What one call appends: the block when the transcript is non-empty, nothing otherwise. */
  function BlockFor(link: string, transcriptOf: string -> string): string
  {
    if transcriptOf(link) == "" then "" else TranscriptionBlock(link, transcriptOf(link))
  }

  // ---------------------------------------------------------------------------------------------
  // Single append

  /** `fileContent + block`, written back only when the transcript is non-empty; `None` means the
      note is not modified. */
  function AppendTranscription(content: string, title: string, text: string): (r: Option<string>)
    ensures r.None? <==> text == ""
    ensures r.Some? ==> |r.value| == |content| + 25 + |title| + |text|
    ensures r.Some? ==> r.value[..|content|] == content && r.value[|content|..] == TranscriptionBlock(title, text)
  {
    if text == "" then None else Some(content + TranscriptionBlock(title, text))
  }

  /** The effect of a command on the active note. */
  datatype NoteEdit =
    | NoActiveFile          // "No active file found!"
    | Crashed               // an exception escapes the handler; nothing is written
    | Unchanged             // the note is not written
    | Modified(content: string)  // `vault.modify(activeFile, content)`

  function EditOf(r: Option<string>): NoteEdit
  {
    match r
    case Some(c) => Modified(c)
    case None => Unchanged
  }

  /** main.ts `addSingleTranscriptionToActiveNote`: the heading names the link. */
  function AddSingleTs(active: Option<string>, link: string, transcriptOf: string -> string): (e: NoteEdit)
    ensures active.None? <==> e.NoActiveFile?
    ensures active.Some? ==> (e.Unchanged? <==> transcriptOf(link) == "")
    ensures e.Modified? ==> e.content == active.value + TranscriptionBlock(link, transcriptOf(link))
  {
    match active
    case None => NoActiveFile
    case Some(content) => EditOf(AppendTranscription(content, link, transcriptOf(link)))
  }

  /** main.js `addSingleTranscriptionToActiveNote` has no active-file check: `vault.read(null)`
      throws. Otherwise it is the main.ts handler. */
  function AddSingleJs(active: Option<string>, link: string, transcriptOf: string -> string): (e: NoteEdit)
    ensures active.None? <==> e.Crashed?
    ensures active.Some? ==> e == AddSingleTs(active, link, transcriptOf)
  {
    match active
    case None => Crashed
    case Some(content) => EditOf(AppendTranscription(content, link, transcriptOf(link)))
  }

  /** `addTranscriptionToActiveNoteFromFile` (both versions): the file is transcribed by its path,
      and the heading names the file by its name. */
  function AddFromFile(active: Option<string>, file: VaultLookup.VaultFile, transcriptOf: string -> string): (e: NoteEdit)
    ensures active.None? <==> e.NoActiveFile?
    ensures active.Some? ==> (e.Unchanged? <==> transcriptOf(file.path) == "")
    ensures e.Modified? ==> e.content == active.value + TranscriptionBlock(file.name, transcriptOf(file.path))
  {
    match active
    case None => NoActiveFile
    case Some(content) => EditOf(AppendTranscription(content, file.name, transcriptOf(file.path)))
  }

  // ---------------------------------------------------------------------------------------------
  // Batch append

  /** The pieces `piece(l)` for the links `l`, joined in order. */
  function JoinMap(links: seq<string>, piece: string -> string): string
    decreases |links|
  {
    if links == [] then "" else JoinMap(links[..|links| - 1], piece) + piece(links[|links| - 1])
  }

  lemma {:induction false} JoinMapAppend(a: seq<string>, b: seq<string>, piece: string -> string)
    ensures JoinMap(a + b, piece) == JoinMap(a, piece) + JoinMap(b, piece)
    decreases |b|
  {
    if b == [] {
      assert a + b == a;
    } else {
      var b' := b[..|b| - 1];
      assert (a + b)[..|a + b| - 1] == a + b';
      JoinMapAppend(a, b', piece);
    }
  }

  lemma JoinMapOne(link: string, piece: string -> string)
    ensures JoinMap([link], piece) == piece(link)
  {
    assert [link][..0] == [];
  }

  /** The batch's pieces: the block of each link for the transcript it gets. */
  function BlockOf(transcriptOf: string -> string): string -> string
  {
    link => BlockFor(link, transcriptOf)
  }

  /** What the batch loop appends for `links`, in order. */
  function Blocks(links: seq<string>, transcriptOf: string -> string): string
  {
    JoinMap(links, BlockOf(transcriptOf))
  }

  /** The `onSelect` callback of `handleAddTranscriptionToActiveNote`: one awaited transcription per
      selected link, in order, appending a block for each non-empty transcript. */
  method AccumulateTranscriptions(original: string, selected: seq<string>, transcriptOf: string -> string)
    returns (updated: string)
    ensures updated == original + Blocks(selected, transcriptOf)
  {
    updated := original;
    for i := 0 to |selected|
      invariant updated == original + Blocks(selected[..i], transcriptOf)
    {
      var link := selected[i];
      var text := transcriptOf(link);
      BatchStep(original, selected, i, transcriptOf);
      if text != "" {
        updated := updated + TranscriptionBlock(link, text);
      }
    }
    assert selected[..|selected|] == selected;
  }

  /** One turn of the batch loop appends the block of the next link. */
  lemma BatchStep(original: string, selected: seq<string>, i: nat, transcriptOf: string -> string)
    requires i < |selected|
    ensures original + Blocks(selected[..i + 1], transcriptOf)
         == original + Blocks(selected[..i], transcriptOf) + BlockFor(selected[i], transcriptOf)
  {
    assert selected[..i + 1][..i] == selected[..i];
    var piece := BlockOf(transcriptOf);
    assert JoinMap(selected[..i + 1], piece) == JoinMap(selected[..i], piece) + piece(selected[i]);
  }

  /** The batch over a concatenation is the batch over each part, one after the other. */
  lemma BlocksAppend(a: seq<string>, b: seq<string>, transcriptOf: string -> string)
    ensures Blocks(a + b, transcriptOf) == Blocks(a, transcriptOf) + Blocks(b, transcriptOf)
  {
    JoinMapAppend(a, b, BlockOf(transcriptOf));
  }

  /** A batch of one link appends what the single command appends. */
  lemma BatchOfOneIsSingleAppend(content: string, link: string, transcriptOf: string -> string)
    ensures Blocks([link], transcriptOf) == BlockFor(link, transcriptOf)
    ensures match AppendTranscription(content, link, transcriptOf(link))
      case Some(c) => c == content + Blocks([link], transcriptOf)
      case None => content == content + Blocks([link], transcriptOf)
  {
    JoinMapOne(link, BlockOf(transcriptOf));
  }

  /** A link whose transcript is empty (not found, failed, or an error) contributes nothing. */
  lemma BlocksSkipEmpty(a: seq<string>, link: string, b: seq<string>, transcriptOf: string -> string)
    requires transcriptOf(link) == ""
    ensures Blocks(a + [link] + b, transcriptOf) == Blocks(a + b, transcriptOf)
  {
    BlocksAppend(a + [link], b, transcriptOf);
    BlocksAppend(a, [link], transcriptOf);
    BlocksAppend(a, b, transcriptOf);
    JoinMapOne(link, BlockOf(transcriptOf));
  }

  /** When no transcript comes back, the note is written back with its text unchanged. */
  lemma BlocksAllEmpty(links: seq<string>, transcriptOf: string -> string)
    requires forall k :: 0 <= k < |links| ==> transcriptOf(links[k]) == ""
    ensures Blocks(links, transcriptOf) == ""
  {
    JoinMapAllEmpty(links, BlockOf(transcriptOf));
  }

  lemma {:induction false} JoinMapAllEmpty(links: seq<string>, piece: string -> string)
    requires forall k :: 0 <= k < |links| ==> piece(links[k]) == ""
    ensures JoinMap(links, piece) == ""
    decreases |links|
  {
    if links != [] {
      JoinMapAllEmpty(links[..|links| - 1], piece);
    }
  }

  /** Each selected link with a non-empty transcript adds its block, at the point of the batch where
      the link stands: the text is the blocks before it, its block, then the blocks after it. */
  lemma BlockStandsInOrder(selected: seq<string>, k: nat, transcriptOf: string -> string)
    requires k < |selected| && transcriptOf(selected[k]) != ""
    ensures Blocks(selected, transcriptOf) ==
      Blocks(selected[..k], transcriptOf) + TranscriptionBlock(selected[k], transcriptOf(selected[k]))
      + Blocks(selected[k + 1..], transcriptOf)
  {
    assert selected == selected[..k] + [selected[k]] + selected[k + 1..];
    BlocksAppend(selected[..k] + [selected[k]], selected[k + 1..], transcriptOf);
    BlocksAppend(selected[..k], [selected[k]], transcriptOf);
    JoinMapOne(selected[k], BlockOf(transcriptOf));
  }

  /** The batch leaves the original text untouched as a prefix. */
  lemma AccumulationKeepsOriginal(original: string, selected: seq<string>, transcriptOf: string -> string)
    ensures var updated := original + Blocks(selected, transcriptOf);
      |original| <= |updated| && updated[..|original|] == original
  {
  }

  // ---------------------------------------------------------------------------------------------
  // The commands, from the active note to the edit

  /** What both commands do with the extracted links: nothing to do, one link handled directly, or
      the selection modal listing every extracted link. */
  datatype Dispatch = NoFile | NoAudioLinks | SingleLink(link: string) | ChooseAmong(links: seq<string>)

  function DispatchLinks(active: Option<string>): (d: Dispatch)
    ensures d.NoFile? <==> active.None?
    ensures active.Some? ==> var links := LinkExtractor.AudioFileLinks(active.value);
      && (d.NoAudioLinks? <==> links == [])
      && (d.SingleLink? <==> |links| == 1)
      && (d.SingleLink? ==> d.link == links[0])
      && (d.ChooseAmong? ==> d.links == links && |d.links| >= 2)
  {
    match active
    case None => NoFile
    case Some(content) =>
      var links := LinkExtractor.AudioFileLinks(content);
      if |links| == 0 then NoAudioLinks
      else if |links| == 1 then SingleLink(links[0])
      else ChooseAmong(links)
  }

  /** `handleAddTranscriptionToActiveNote` once the user has submitted `selected` in the modal (the
      single-link case does not open it): the note ends as its original text plus the blocks. */
  method AddBatchToActiveNote(active: Option<string>, selected: seq<string>, transcriptOf: string -> string)
    returns (e: NoteEdit)
    requires DispatchLinks(active).ChooseAmong?
    ensures e == Modified(active.value + Blocks(selected, transcriptOf))
  {
    var updated := AccumulateTranscriptions(active.value, selected, transcriptOf);
    e := Modified(updated);
  }

  // ---------------------------------------------------------------------------------------------
  // Transcripts from the two versions of transcribeSingleAudioFile

  function TsTranscriptOf(v: VaultLookup.Vault, transcribe: VaultLookup.VaultFile -> string): string -> string
  {
    link => Transcription.ReturnValue(Transcription.TranscribeSingleTs(v, link, true, transcribe))
  }

  function JsTranscriptOf(v: VaultLookup.Vault, transcribe: VaultLookup.VaultFile -> string): string -> string
  {
    link => Transcription.ReturnValue(Transcription.TranscribeSingleJs(v, link, true, transcribe))
  }

  /** In main.ts a selected link that is not the path of a file adds nothing to the batch. */
  lemma TsBatchSkipsUnresolved(v: VaultLookup.Vault, transcribe: VaultLookup.VaultFile -> string,
                               a: seq<string>, link: string, b: seq<string>)
    requires !(link in v.entries && v.entries[link].File?)
    ensures Blocks(a + [link] + b, TsTranscriptOf(v, transcribe)) == Blocks(a + b, TsTranscriptOf(v, transcribe))
  {
    Transcription.TsReturnValue(v, link, transcribe);
    BlocksSkipEmpty(a, link, b, TsTranscriptOf(v, transcribe));
  }

  /** A link main.ts can transcribe adds the same block in main.js; main.js may add more, for links
      found only by the suffix search. */
  lemma JsBlockAgreesWithTs(v: VaultLookup.Vault, transcribe: VaultLookup.VaultFile -> string, link: string)
    requires link in v.entries && v.entries[link].File?
    ensures BlockFor(link, JsTranscriptOf(v, transcribe)) == BlockFor(link, TsTranscriptOf(v, transcribe))
  {
    Transcription.JsAgreesWhenReturningText(v, link, transcribe);
    Transcription.JsIntendedExtendsTs(v, link, true, transcribe);
  }
}
