/**
 * The vault-facing helpers of the plugin: `isSupportedAudioFile`, `searchFileByName`, and the
 * two versions of how `transcribeSingleAudioFile` turns a link into a file.
 *
 * The vault is a value: `entries` is what `getAbstractFileByPath` can return (a file or a
 * folder, keyed by path), `files` is what `getFiles()` enumerates, in its order.
 */
module VaultLookup {
  import opened Wrappers
  import LinkExtractor

  datatype VaultFile = VaultFile(path: string, name: string, extension: string)

  datatype AbstractFile = File(file: VaultFile) | Folder(folderPath: string)

  datatype Vault = Vault(entries: map<string, AbstractFile>, files: seq<VaultFile>)

  // ---------------------------------------------------------------------------------------------
  // isSupportedAudioFile

  /** ASCII lower-casing of one character (`toLowerCase` on the ASCII range). */
  function LowerChar(c: char): char
  {
    if 'A' <= c <= 'Z' then (c as int + 32) as char else c
  }

  function AsciiLower(s: string): (r: string)
    ensures |r| == |s|
    ensures forall k :: 0 <= k < |s| ==> r[k] == LowerChar(s[k])
  {
    if s == [] then [] else [LowerChar(s[0])] + AsciiLower(s[1..])
  }

  /** `isSupportedAudioFile`: the lower-cased extension is one of the five the extractor accepts
      (the source lists the same five in the same order). A supported extension is three or four
      characters long, and any file name ending in it, once lower-cased, is one the embed pattern
      accepts. */
  predicate IsSupportedAudioFile(extension: string): (r: bool)
    ensures r ==> 3 <= |extension| <= 4
    ensures r ==> forall name: string :: name != [] ==>
      LinkExtractor.IsAudioLinkText(name + "." + AsciiLower(extension))
  {
    AsciiLower(extension) in LinkExtractor.AudioExtensions
  }

  /** Two extensions that differ only in the case of letters are both supported or both not. */
  lemma {:induction false} SupportIgnoresCase(a: string, b: string)
    requires |a| == |b| && forall k :: 0 <= k < |a| ==> LowerChar(a[k]) == LowerChar(b[k])
    ensures IsSupportedAudioFile(a) <==> IsSupportedAudioFile(b)
  {
    assert AsciiLower(a) == AsciiLower(b);
  }

  /** Supported exactly when, character by character, the extension lower-cases to one of the five. */
  lemma SupportedIff(extension: string)
    ensures IsSupportedAudioFile(extension) <==>
      exists ext :: ext in LinkExtractor.AudioExtensions && |ext| == |extension| &&
        forall k :: 0 <= k < |ext| ==> LowerChar(extension[k]) == ext[k]
  {
    if exists ext :: ext in LinkExtractor.AudioExtensions && |ext| == |extension| &&
        forall k :: 0 <= k < |ext| ==> LowerChar(extension[k]) == ext[k] {
      var ext :| ext in LinkExtractor.AudioExtensions && |ext| == |extension| &&
        forall k :: 0 <= k < |ext| ==> LowerChar(extension[k]) == ext[k];
      assert AsciiLower(extension) == ext;
    }
  }

  lemma SupportedExamples()
    ensures IsSupportedAudioFile("mp3") && IsSupportedAudioFile("MP3") && IsSupportedAudioFile("M4a")
    ensures !IsSupportedAudioFile("flac") && !IsSupportedAudioFile("") && !IsSupportedAudioFile(".mp3")
  {
    assert AsciiLower("MP3") == "mp3";
    assert AsciiLower("M4a") == "m4a";
    assert AsciiLower("mp3") == "mp3";
  }

  // ---------------------------------------------------------------------------------------------
  // searchFileByName

  /** `String.prototype.endsWith`. */
  predicate EndsWith(s: string, suffix: string)
  {
    |suffix| <= |s| && s[|s| - |suffix|..] == suffix
  }

  /** The index of the first file whose path ends with `name`, or `|files|`. */
  function FirstSuffixMatch(files: seq<VaultFile>, name: string): (k: nat)
    ensures k <= |files|
    ensures forall j :: 0 <= j < k ==> !EndsWith(files[j].path, name)
    ensures k < |files| ==> EndsWith(files[k].path, name)
  {
    if files == [] then 0
    else if EndsWith(files[0].path, name) then 0
    else 1 + FirstSuffixMatch(files[1..], name)
  }

  /** `searchFileByName`: `files.find(file => file.path.endsWith(fileName))`. */
  function SearchFileByName(files: seq<VaultFile>, name: string): (r: Option<VaultFile>)
    ensures r.None? <==> forall j :: 0 <= j < |files| ==> !EndsWith(files[j].path, name)
    ensures r.Some? ==> EndsWith(r.value.path, name)
    ensures r.Some? ==> exists k :: 0 <= k < |files| && files[k] == r.value
                                  && (forall j :: 0 <= j < k ==> !EndsWith(files[j].path, name))
  {
    var k := FirstSuffixMatch(files, name);
    if k < |files| then Some(files[k]) else None
  }

  /** The lookup is by suffix of the path, not by file name: `long-song.mp3` answers a search for
      `song.mp3`, and the earlier of two candidates wins. */
  lemma SearchIsSuffixMatch()
    ensures SearchFileByName([VaultFile("folder/song.mp3", "song.mp3", "mp3")], "song.mp3")
         == Some(VaultFile("folder/song.mp3", "song.mp3", "mp3"))
    ensures SearchFileByName([VaultFile("folder/song.mp3", "song.mp3", "mp3")], "missing.mp3") == None
    ensures SearchFileByName([VaultFile("a/long-song.mp3", "long-song.mp3", "mp3"),
                              VaultFile("b/song.mp3", "song.mp3", "mp3")], "song.mp3")
         == Some(VaultFile("a/long-song.mp3", "long-song.mp3", "mp3"))
  {
    assert EndsWith("folder/song.mp3", "song.mp3");
    assert !EndsWith("folder/song.mp3", "missing.mp3");
    assert EndsWith("a/long-song.mp3", "song.mp3");
  }

  // ---------------------------------------------------------------------------------------------
  // Link resolution in transcribeSingleAudioFile

  /** `getAbstractFileByPath` returns the entry stored under the path it is given, so a file entry
      carries that path. */
  predicate PathsAgree(v: Vault)
  {
    forall p :: p in v.entries && v.entries[p].File? ==> v.entries[p].file.path == p
  }

  /** main.ts: `getAbstractFileByPath(link)`, and only a file will do; there is no search. Folders
      and files stored under another path are not found, and a file that is found has the link as
      its exact path. */
  function ResolveTs(v: Vault, link: string): (r: Option<VaultFile>)
    ensures r.Some? <==> link in v.entries && v.entries[link].File?
    ensures r.Some? ==> File(r.value) == v.entries[link]
    ensures PathsAgree(v) && r.Some? ==> r.value.path == link
  {
    if link in v.entries && v.entries[link].File? then Some(v.entries[link].file) else None
  }

  /** main.js: `getAbstractFileByPath(link)`, whatever it is; when that is null, `searchFileByName`.
      Whichever way a file is found, its path ends with the link. */
  function ResolveJs(v: Vault, link: string): (r: Option<AbstractFile>)
    ensures PathsAgree(v) && r.Some? && r.value.File? ==> EndsWith(r.value.file.path, link)
    ensures r.Some? && r.value.Folder? ==> link in v.entries
  {
    if link in v.entries then Some(v.entries[link])
    else match SearchFileByName(v.files, link)
      case Some(f) => Some(File(f))
      case None => None
  }

  /** main.js: an exact path hit is used first; otherwise the first file whose path ends with the
      link; when both miss, nothing. */
  lemma ResolveJsOrder(v: Vault, link: string)
    ensures link in v.entries ==> ResolveJs(v, link) == Some(v.entries[link])
    ensures link !in v.entries && ResolveJs(v, link).Some? ==>
      ResolveJs(v, link).value.File? &&
      EndsWith(ResolveJs(v, link).value.file.path, link) &&
      exists k :: 0 <= k < |v.files| && v.files[k] == ResolveJs(v, link).value.file &&
        forall j :: 0 <= j < k ==> !EndsWith(v.files[j].path, link)
    ensures ResolveJs(v, link).None? <==>
      link !in v.entries && forall j :: 0 <= j < |v.files| ==> !EndsWith(v.files[j].path, link)
  {
  }

  /** Whatever main.ts resolves, main.js resolves to the same file. */
  lemma ResolveJsExtendsTs(v: Vault, link: string)
    requires ResolveTs(v, link).Some?
    ensures ResolveJs(v, link) == Some(File(ResolveTs(v, link).value))
  {
  }

  /** A vault holding only `folder/song.mp3`: main.js finds `song.mp3` through the search, main.ts
      does not find it at all, and `missing.mp3` is found by neither. */
  lemma ResolutionExample(v: Vault)
    requires v == Vault(map["folder/song.mp3" := File(VaultFile("folder/song.mp3", "song.mp3", "mp3"))],
                        [VaultFile("folder/song.mp3", "song.mp3", "mp3")])
    ensures ResolveJs(v, "song.mp3") == Some(File(VaultFile("folder/song.mp3", "song.mp3", "mp3")))
    ensures ResolveTs(v, "song.mp3") == None
    ensures ResolveJs(v, "missing.mp3") == None && ResolveTs(v, "missing.mp3") == None
  {
    SearchIsSuffixMatch();
    assert "song.mp3" != "folder/song.mp3";
    assert "missing.mp3" != "folder/song.mp3";
  }
}
