/**
 * `createTranscriptionNoteWithUniqueName`: the choice of a path that does not exist yet, and the
 * body of the new note.
 *
 * `normalizePath` is the parameter `normalize`; `vault.adapter.exists` is membership in `existing`,
 * which stays fixed while the loop runs; `clock` holds the readings of `new Date().toISOString()`
 * the loop takes, in order. Creating and opening the note are host calls and are not modelled: the
 * result is the path and the content handed to `vault.create`.
 */
module NewNote {
  import opened Wrappers
  import NoteContent

  // ---------------------------------------------------------------------------------------------
  // The timestamp suffix

  /** One character of `replace(/[:.]/g, '-')`. */
  function SanitizeChar(c: char): char
  {
    if c == ':' || c == '.' then '-' else c
  }

  /** `timestamp.replace(/[:.]/g, '-')`. */
  function SanitizeTimestamp(ts: string): (r: string)
    ensures |r| == |ts|
  {
    if ts == [] then [] else [SanitizeChar(ts[0])] + SanitizeTimestamp(ts[1..])
  }

  /** Each character is sanitised where it stands. */
  lemma {:induction false} SanitizeAt(ts: string)
    ensures forall k :: 0 <= k < |ts| ==> SanitizeTimestamp(ts)[k] == SanitizeChar(ts[k])
  {
    if ts != [] {
      SanitizeAt(ts[1..]);
    }
  }

  /** The sanitised timestamp has no `:` and no `.`, and every other character is kept in place. */
  lemma SanitizedHasNoSeparators(ts: string)
    ensures ':' !in SanitizeTimestamp(ts) && '.' !in SanitizeTimestamp(ts)
    ensures forall k :: 0 <= k < |ts| && ts[k] != ':' && ts[k] != '.' ==> SanitizeTimestamp(ts)[k] == ts[k]
    ensures forall k :: 0 <= k < |ts| && (ts[k] == ':' || ts[k] == '.') ==> SanitizeTimestamp(ts)[k] == '-'
  {
    SanitizeAt(ts);
  }

  /** Sanitising twice is sanitising once. */
  lemma SanitizeIdempotent(ts: string)
    ensures SanitizeTimestamp(SanitizeTimestamp(ts)) == SanitizeTimestamp(ts)
  {
    var r := SanitizeTimestamp(ts);
    SanitizeAt(ts);
    SanitizeAt(r);
    assert forall k :: 0 <= k < |r| ==> SanitizeTimestamp(r)[k] == SanitizeChar(SanitizeChar(ts[k])) == r[k];
  }

  /** A `toISOString` reading `dateThh:mm:ss.sssZ` becomes `dateThh-mm-ss-sssZ`: the date and the
      numbers stay as they are, each separator becomes a dash. */
  lemma SanitizeIsoReading(date: string, hh: string, mm: string, ss: string, ms: string)
    requires Plain(date) && Plain(hh) && Plain(mm) && Plain(ss) && Plain(ms)
    ensures SanitizeTimestamp(date + "T" + hh + ":" + mm + ":" + ss + "." + ms + "Z")
         == date + "T" + hh + "-" + mm + "-" + ss + "-" + ms + "Z"
  {
    var t0 := date + "T";
    var t1 := t0 + hh;
    var t2 := t1 + ":" + mm;
    var t3 := t2 + ":" + ss;
    var t4 := t3 + "." + ms;
    SingleCharacters();
    assert SanitizeTimestamp(t0) == t0 by {
      SanitizeAppend(date, "T");
      PlainKept(date);
    }
    assert SanitizeTimestamp(t1) == t1 by {
      SanitizeAppend(t0, hh);
      PlainKept(hh);
    }
    assert SanitizeTimestamp(t2) == t1 + "-" + mm by {
      SanitizeAppend(t1, ":");
      SanitizeAppend(t1 + ":", mm);
      PlainKept(mm);
    }
    assert SanitizeTimestamp(t3) == t1 + "-" + mm + "-" + ss by {
      SanitizeAppend(t2, ":");
      SanitizeAppend(t2 + ":", ss);
      PlainKept(ss);
    }
    assert SanitizeTimestamp(t4) == t1 + "-" + mm + "-" + ss + "-" + ms by {
      SanitizeAppend(t3, ".");
      SanitizeAppend(t3 + ".", ms);
      PlainKept(ms);
    }
    SanitizeAppend(t4, "Z");
  }

  lemma SingleCharacters()
    ensures SanitizeTimestamp(":") == "-" && SanitizeTimestamp(".") == "-"
    ensures SanitizeTimestamp("T") == "T" && SanitizeTimestamp("Z") == "Z"
  {
    assert ":"[1..] == [] && "."[1..] == [] && "T"[1..] == [] && "Z"[1..] == [];
  }

  /** Text with neither separator. */
  predicate Plain(s: string)
  {
    ':' !in s && '.' !in s
  }

  lemma PlainKept(s: string)
    requires Plain(s)
    ensures SanitizeTimestamp(s) == s
  {
    var r := SanitizeTimestamp(s);
    SanitizeAt(s);
    forall k | 0 <= k < |s| ensures r[k] == s[k] {
      assert s[k] in s;
    }
  }

  /** Sanitising works character by character, so it distributes over concatenation. */
  lemma SanitizeAppend(a: string, b: string)
    ensures SanitizeTimestamp(a + b) == SanitizeTimestamp(a) + SanitizeTimestamp(b)
  {
    var l, r := SanitizeTimestamp(a + b), SanitizeTimestamp(a) + SanitizeTimestamp(b);
    SanitizeAt(a + b);
    SanitizeAt(a);
    SanitizeAt(b);
    assert forall k :: 0 <= k < |l| ==> l[k] == r[k] by {
      forall k | 0 <= k < |l| ensures l[k] == r[k] {
        if k < |a| {
          assert (a + b)[k] == a[k];
        } else {
          assert (a + b)[k] == b[k - |a|];
        }
      }
    }
  }

  // ---------------------------------------------------------------------------------------------
  // Candidate paths

  /** `${audioFileName} Transcription`, the name tried first. */
  function FirstFileName(audio: string): string
  {
    audio + " Transcription"
  }

  /** `${audioFileName} Transcription ${timestamp}`, the name tried after a clock reading. */
  function TimestampFileName(audio: string, reading: string): string
  {
    audio + " Transcription " + SanitizeTimestamp(reading)
  }

  /** `normalizePath(`${activeFile.parent.path}/${fileName}.md`)`. */
  function NotePath(normalize: string -> string, parent: string, fileName: string): string
  {
    normalize(parent + "/" + fileName + ".md")
  }

  /** The paths the loop tries, in order: the plain name, then one per clock reading. */
  function Candidates(normalize: string -> string, parent: string, audio: string, clock: seq<string>): (c: seq<string>)
    ensures |c| == |clock| + 1
    ensures c[0] == NotePath(normalize, parent, FirstFileName(audio))
    ensures forall k :: 0 <= k < |clock| ==> c[k + 1] == NotePath(normalize, parent, TimestampFileName(audio, clock[k]))
  {
    if clock == [] then [NotePath(normalize, parent, FirstFileName(audio))]
    else
      var last := NotePath(normalize, parent, TimestampFileName(audio, clock[|clock| - 1]));
      Candidates(normalize, parent, audio, clock[..|clock| - 1]) + [last]
  }

  /** The index of the first candidate that does not exist, or `|candidates|`. */
  function FirstFresh(candidates: seq<string>, existing: set<string>): (k: nat)
    ensures k <= |candidates|
    ensures forall j :: 0 <= j < k ==> candidates[j] in existing
    ensures k < |candidates| ==> candidates[k] !in existing
    ensures k == |candidates| <==> forall j :: 0 <= j < |candidates| ==> candidates[j] in existing
  {
    if candidates == [] then 0
    else if candidates[0] !in existing then 0
    else 1 + FirstFresh(candidates[1..], existing)
  }

  /** Some path the loop would try does not exist; otherwise the source loops for ever. */
  predicate SomeCandidateFresh(normalize: string -> string, parent: string, audio: string,
                               existing: set<string>, clock: seq<string>)
  {
    exists k :: 0 <= k < |clock| + 1 && Candidates(normalize, parent, audio, clock)[k] !in existing
  }

  /** The `while (await exists(filePath))` loop. `ticks` is the number of clock readings taken. */
  method UniqueNotePath(normalize: string -> string, parent: string, audio: string,
                        existing: set<string>, clock: seq<string>)
    returns (path: string, ticks: nat)
    requires SomeCandidateFresh(normalize, parent, audio, existing, clock)
    ensures path !in existing
    ensures ticks == FirstFresh(Candidates(normalize, parent, audio, clock), existing)
    ensures ticks <= |clock| && path == Candidates(normalize, parent, audio, clock)[ticks]
    ensures ticks == 0 ==> path == NotePath(normalize, parent, FirstFileName(audio))
  {
    ghost var cands := Candidates(normalize, parent, audio, clock);
    var fileName := FirstFileName(audio);
    path := NotePath(normalize, parent, fileName);
    ticks := 0;
    while path in existing
      invariant ticks <= |clock| && path == cands[ticks]
      invariant forall j :: 0 <= j < ticks ==> cands[j] in existing
      decreases |clock| - ticks
    {
      assert ticks < |clock| by {
        var k :| 0 <= k < |clock| + 1 && cands[k] !in existing;
        assert ticks < k;
      }
      fileName := TimestampFileName(audio, clock[ticks]);
      path := NotePath(normalize, parent, fileName);
      ticks := ticks + 1;
    }
    FirstFreshIs(cands, existing, ticks);
  }

  /** The first fresh candidate is the one with every candidate before it existing. */
  lemma FirstFreshIs(candidates: seq<string>, existing: set<string>, k: nat)
    requires k < |candidates| && candidates[k] !in existing
    requires forall j :: 0 <= j < k ==> candidates[j] in existing
    ensures FirstFresh(candidates, existing) == k
  {
  }

  /** When `normalizePath` keeps distinct paths distinct, a timestamped path is never the plain one:
      the loop only leaves the plain path when it exists. */
  lemma TimestampedPathIsNotPlain(normalize: string -> string, parent: string, audio: string, reading: string)
    requires forall a, b :: normalize(a) == normalize(b) ==> a == b
    ensures NotePath(normalize, parent, TimestampFileName(audio, reading)) != NotePath(normalize, parent, FirstFileName(audio))
  {
    var plain := parent + "/" + FirstFileName(audio) + ".md";
    var stamped := parent + "/" + TimestampFileName(audio, reading) + ".md";
    assert |stamped| == |plain| + 1 + |reading|;
  }

  /** Two readings that agree after sanitising (the same millisecond, for one) give the same path,
      so the loop finds a fresh path only once the clock has moved. */
  lemma SameReadingSamePath(normalize: string -> string, parent: string, audio: string, clock: seq<string>, i: nat, j: nat)
    requires i < |clock| && j < |clock| && SanitizeTimestamp(clock[i]) == SanitizeTimestamp(clock[j])
    ensures Candidates(normalize, parent, audio, clock)[i + 1] == Candidates(normalize, parent, audio, clock)[j + 1]
  {
  }

  /** With the plain path taken, the first clock reading names the note. */
  lemma PlainTakenExample(normalize: string -> string, parent: string, audio: string, reading: string)
    requires forall a, b :: normalize(a) == normalize(b) ==> a == b
    ensures var c := Candidates(normalize, parent, audio, [reading]);
      && FirstFresh(c, {NotePath(normalize, parent, FirstFileName(audio))}) == 1
      && c[1] == NotePath(normalize, parent, TimestampFileName(audio, reading))
  {
    var c := Candidates(normalize, parent, audio, [reading]);
    TimestampedPathIsNotPlain(normalize, parent, audio, reading);
    FirstFreshIs(c, {NotePath(normalize, parent, FirstFileName(audio))}, 1);
  }

  // ---------------------------------------------------------------------------------------------
  // The note

  /** `### Transcription for ${audioFileName}\n${text}`. */
  function NewNoteBody(audio: string, text: string): (body: string)
    ensures "\n\n" + body == NoteContent.TranscriptionBlock(audio, text)
  {
    NoteContent.TranscriptionHeading + audio + "\n" + text
  }

  /** The new note holds what an appended block holds, without the blank line in front; so it reads
      back as the audio file name and the transcript. */
  lemma NewNoteBodyIsBlock(audio: string, text: string)
    ensures '\n' !in audio ==> NoteContent.ParseBlock("\n\n" + NewNoteBody(audio, text)) == Some((audio, text))
  {
    if '\n' !in audio {
      NoteContent.ParseBlockRoundTrip(audio, text);
    }
  }

  /** What the writer does with the active note's folder. */
  datatype NoteCreation =
    | NoParent                                 // "No active file or active file has no parent."
    | Throws                                   // `activeFile.parent.path` on a missing file or parent
    | Create(path: string, content: string)    // `vault.create(path, content)`

  /** main.ts: `parent` is the path of the active file's folder, `None` when there is no active
      file or it has no parent. */
  method CreateTranscriptionNoteTs(parent: Option<string>, normalize: string -> string, audio: string,
                                   text: string, existing: set<string>, clock: seq<string>)
    returns (r: NoteCreation)
    requires parent.Some? ==> SomeCandidateFresh(normalize, parent.value, audio, existing, clock)
    ensures parent.None? <==> r.NoParent?
    ensures !r.Throws?
    ensures r.Create? ==> var c := Candidates(normalize, parent.value, audio, clock);
      && r.path !in existing
      && r.path == c[FirstFresh(c, existing)]
      && r.content == NewNoteBody(audio, text)
  {
    if parent.None? {
      return NoParent;
    }
    var path, ticks := UniqueNotePath(normalize, parent.value, audio, existing, clock);
    r := Create(path, NewNoteBody(audio, text));
  }

  /** main.js: the same, except that nothing checks for the active file or its parent. */
  method CreateTranscriptionNoteJs(parent: Option<string>, normalize: string -> string, audio: string,
                                   text: string, existing: set<string>, clock: seq<string>)
    returns (r: NoteCreation)
    requires parent.Some? ==> SomeCandidateFresh(normalize, parent.value, audio, existing, clock)
    ensures parent.None? <==> r.Throws?
    ensures !r.NoParent?
    ensures r.Create? ==> var c := Candidates(normalize, parent.value, audio, clock);
      && r.path !in existing
      && r.path == c[FirstFresh(c, existing)]
      && r.content == NewNoteBody(audio, text)
  {
    if parent.None? {
      return Throws;
    }
    var path, ticks := UniqueNotePath(normalize, parent.value, audio, existing, clock);
    r := Create(path, NewNoteBody(audio, text));
  }
}
