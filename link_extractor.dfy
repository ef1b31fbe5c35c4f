/**
 * The audio-embed link extractor `extractAudioFileLinks` (main.ts and main.js carry the same code).
 *
 * The source runs the global regular expression
 *   `!\[\[` `(` `[^\]]+` `\.` `(mp3|webm|wav|ogg|m4a)` `)` `\]\]`
 * with `exec` until it returns null, pushing capture group 1 each time. Because every character of the
 * group is a non-`]` character and the group must be followed by `]`, backtracking can never make the
 * group shorter than the maximal run of non-`]` characters after `![[`: a match at position i exists
 * exactly when that run ends in `.` plus one of the five extensions (lower case only, the pattern has
 * no `i` flag), has at least one character before the dot, and is followed by `]]`. `MatchAt` states
 * that rule; `Scan` is the sequence of matches `exec` finds, left to right, resuming after each `]]`.
 */
module LinkExtractor {
  import opened Wrappers

  /** The alternation of the pattern, in its order. */
  const AudioExtensions: seq<string> := ["mp3", "webm", "wav", "ogg", "m4a"]

  const EmbedOpen: string := "![["
  const EmbedClose: string := "]]"

  /** One match of the pattern: the index of its `!` and capture group 1. */
  datatype Occurrence = Occurrence(start: nat, link: string) {
    /** The index just after the closing `]]`, where `lastIndex` resumes. */
    function End(): nat { start + |link| + 5 }
  }

  /** The index of the first `c` at or after `j`, or `|s|` when there is none. The group of the
      pattern runs up to the first `]`; the note reader uses the same search for line breaks. */
  function NextIndexOf(s: string, j: nat, c: char): (e: nat)
    requires j <= |s|
    ensures j <= e <= |s|
    decreases |s| - j
  {
    if j == |s| || s[j] == c then j else NextIndexOf(s, j + 1, c)
  }

  /** The run from `j` holds no `c`, and stops at a `c` or at the end of the text. */
  lemma {:induction false} NextIndexOfStops(s: string, j: nat, c: char)
    requires j <= |s|
    ensures forall k :: j <= k < NextIndexOf(s, j, c) ==> s[k] != c
    ensures NextIndexOf(s, j, c) < |s| ==> s[NextIndexOf(s, j, c)] == c
    decreases |s| - j
  {
    if j < |s| && s[j] != c {
      NextIndexOfStops(s, j + 1, c);
    }
  }

  /** `run` is at least one character, a `.`, and then `ext`. */
  predicate EndsWithExtension(run: string, ext: string)
  {
    |run| >= |ext| + 2 && run[|run| - |ext| - 1] == '.' && run[|run| - |ext|..] == ext
  }

  /** What the capture group must look like besides containing no `]`. */
  predicate IsAudioLinkText(run: string)
  {
    || EndsWithExtension(run, "mp3")
    || EndsWithExtension(run, "webm")
    || EndsWithExtension(run, "wav")
    || EndsWithExtension(run, "ogg")
    || EndsWithExtension(run, "m4a")
  }

  /** The disjunction above is the alternation over `AudioExtensions`. */
  lemma AudioLinkTextIsAlternation(run: string)
    ensures IsAudioLinkText(run) <==> exists ext :: ext in AudioExtensions && EndsWithExtension(run, ext)
  {
  }

  /** `![[` stands at index `p`. */
  predicate HasEmbedOpenAt(s: string, p: nat)
  {
    p + 3 <= |s| && s[p] == '!' && s[p + 1] == '[' && s[p + 2] == '['
  }

  /** The match the pattern makes when tried at index `i`, if any. */
  function MatchAt(s: string, i: nat): (m: Option<Occurrence>)
    requires i <= |s|
    ensures m.Some? ==> m.value.start == i && m.value.End() <= |s|
  {
    if HasEmbedOpenAt(s, i) then
      var e := NextIndexOf(s, i + 3, ']');
      if e + 2 <= |s| && s[e] == ']' && s[e + 1] == ']' && IsAudioLinkText(s[i + 3..e]) then
        Some(Occurrence(i, s[i + 3..e]))
      else None
    else None
  }

  /** A match is the text `![[link]]` with an audio link that has no `]`. */
  lemma MatchAtSound(s: string, i: nat)
    requires i <= |s| && MatchAt(s, i).Some?
    ensures var o := MatchAt(s, i).value;
      s[i..o.End()] == EmbedOpen + o.link + EmbedClose && IsAudioLinkText(o.link) && ']' !in o.link
  {
    var e := NextIndexOf(s, i + 3, ']');
    var run := s[i + 3..e];
    NextIndexOfStops(s, i + 3, ']');
    assert forall k :: 0 <= k < |run| ==> run[k] == s[i + 3 + k];
    assert s[i..i + 3] == EmbedOpen;
    assert s[e..e + 2] == EmbedClose;
    assert s[i..e + 2] == s[i..i + 3] + run + s[e..e + 2];
  }

  /** The matches `exec` finds from `lastIndex == i` on, in order. */
  function Scan(s: string, i: nat): (r: seq<Occurrence>)
    requires i <= |s|
    ensures forall k :: 0 <= k < |r| ==> i <= r[k].start && r[k].End() <= |s|
    decreases |s| - i
  {
    if i == |s| then []
    else match MatchAt(s, i)
      case Some(o) => [o] + Scan(s, o.End())
      case None => Scan(s, i + 1)
  }

  /** The capture groups of a list of matches. */
  function Links(occs: seq<Occurrence>): (r: seq<string>)
    ensures |r| == |occs|
    ensures forall k :: 0 <= k < |occs| ==> r[k] == occs[k].link
  {
    if occs == [] then [] else [occs[0].link] + Links(occs[1..])
  }

  /** The indices at which the emitted embeds start. */
  function Starts(occs: seq<Occurrence>): (r: seq<nat>)
    ensures |r| == |occs|
    ensures forall k :: 0 <= k < |occs| ==> r[k] == occs[k].start
  {
    if occs == [] then [] else [occs[0].start] + Starts(occs[1..])
  }

  /** What `extractAudioFileLinks(content)` returns: each link is an audio link text without `]`. */
  function AudioFileLinks(content: string): (r: seq<string>)
    ensures forall k :: 0 <= k < |r| ==> r[k] != [] && ']' !in r[k] && IsAudioLinkText(r[k])
  {
    ScanLinksSound(content, 0);
    Links(Scan(content, 0))
  }

  /** Where each of those links' embeds starts in `content`. */
  function EmbedPositions(content: string): seq<nat>
  {
    Starts(Scan(content, 0))
  }

  /** One call of `regex.exec(content)` with the given `lastIndex`: the leftmost match at or after it. */
  method Exec(s: string, lastIndex: nat) returns (m: Option<Occurrence>)
    requires lastIndex <= |s|
    ensures m.None? ==> Scan(s, lastIndex) == []
    ensures m.Some? ==> lastIndex <= m.value.start && m.value.End() <= |s|
    ensures m.Some? ==> Scan(s, lastIndex) == [m.value] + Scan(s, m.value.End())
  {
    var p := lastIndex;
    while p < |s|
      invariant lastIndex <= p <= |s|
      invariant Scan(s, p) == Scan(s, lastIndex)
    {
      var here := MatchAt(s, p);
      if here.Some? {
        return here;
      }
      p := p + 1;
    }
    return None;
  }

  /** `extractAudioFileLinks`: call `exec` until it fails, pushing group 1 of every match. */
  method ExtractAudioFileLinks(content: string) returns (matches: seq<string>)
    ensures matches == AudioFileLinks(content)
  {
    matches := [];
    var lastIndex: nat := 0;
    while true
      invariant lastIndex <= |content|
      invariant matches + Links(Scan(content, lastIndex)) == AudioFileLinks(content)
      decreases |content| - lastIndex
    {
      var found := Exec(content, lastIndex);
      if found.None? {
        break;
      }
      var o := found.value;
      LinksCons(o, Scan(content, o.End()));
      matches := matches + [o.link];
      lastIndex := o.End();
    }
  }

  // ---------------------------------------------------------------------------------------------
  // What the pattern accepts at one index

  /** The pattern matches at `i` with group `link` exactly when the text there is `![[link]]`, `link`
      has no `]`, and `link` is at least one character, a dot and one of the five extensions. */
  lemma MatchAtExactly(s: string, i: nat, link: string)
    requires i <= |s|
    ensures MatchAt(s, i) == Some(Occurrence(i, link)) <==>
      (i + |link| + 5 <= |s| && s[i..i + |link| + 5] == EmbedOpen + link + EmbedClose
       && ']' !in link && IsAudioLinkText(link))
  {
    if i + |link| + 5 <= |s| && s[i..i + |link| + 5] == EmbedOpen + link + EmbedClose
       && ']' !in link && IsAudioLinkText(link) {
      EmbedTextMatches(s, i, link);
    }
    if MatchAt(s, i) == Some(Occurrence(i, link)) {
      MatchAtSound(s, i);
    }
  }

  lemma EmbedTextMatches(s: string, i: nat, link: string)
    requires i + |link| + 5 <= |s| && s[i..i + |link| + 5] == EmbedOpen + link + EmbedClose
    requires ']' !in link && IsAudioLinkText(link)
    ensures MatchAt(s, i) == Some(Occurrence(i, link))
  {
    var e := i + 3 + |link|;
    SliceOfEmbed(s, i, link);
    forall k | i + 3 <= k < e ensures s[k] != ']' {
      assert s[k] == link[k - i - 3];
    }
    NextIndexOfAt(s, i + 3, e, ']');
  }

  /** Reading `![[link]]` back out of the text, piece by piece. */
  lemma SliceOfEmbed(s: string, i: nat, link: string)
    requires i + |link| + 5 <= |s| && s[i..i + |link| + 5] == EmbedOpen + link + EmbedClose
    ensures HasEmbedOpenAt(s, i)
    ensures s[i + 3..i + 3 + |link|] == link
    ensures forall k :: i + 3 <= k < i + 3 + |link| ==> s[k] == link[k - i - 3]
    ensures s[i + 3 + |link|..i + |link| + 5] == EmbedClose
    ensures s[i + 3 + |link|] == ']' && s[i + 4 + |link|] == ']'
  {
    var w := s[i..i + |link| + 5];
    assert forall k :: 0 <= k < |w| ==> w[k] == s[i + k];
    assert w[..3] == EmbedOpen;
    assert s[i] == w[0] && s[i + 1] == w[1] && s[i + 2] == w[2];
    assert s[i + 3..i + 3 + |link|] == w[3..3 + |link|] == link;
    assert s[i + 3 + |link|..i + |link| + 5] == w[3 + |link|..] == EmbedClose;
    assert s[i + 4 + |link|] == w[4 + |link|];
  }

  /** The first `c` from `j` on is at `e` when no character before it is a `c`. */
  lemma {:induction false} NextIndexOfAt(s: string, j: nat, e: nat, c: char)
    requires j <= e < |s| && s[e] == c
    requires forall k :: j <= k < e ==> s[k] != c
    ensures NextIndexOf(s, j, c) == e
    decreases e - j
  {
    if j < e {
      NextIndexOfAt(s, j + 1, e, c);
    }
  }

  // ---------------------------------------------------------------------------------------------
  // Soundness, order, non-overlap and completeness of the scan

  /** The group of every emitted match is an audio link text without `]`. */
  lemma ScanLinksSound(s: string, i: nat)
    requires i <= |s|
    ensures forall k :: 0 <= k < |Scan(s, i)| ==> IsAudioLinkText(Scan(s, i)[k].link) && ']' !in Scan(s, i)[k].link
  {
    ScanSound(s, i);
    forall k | 0 <= k < |Scan(s, i)|
      ensures IsAudioLinkText(Scan(s, i)[k].link) && ']' !in Scan(s, i)[k].link
    {
      MatchAtSound(s, Scan(s, i)[k].start);
    }
  }

  /** Every emitted match starts at or after `i`, fits in the text, and is a match of the pattern. */
  lemma {:induction false} ScanSound(s: string, i: nat)
    requires i <= |s|
    ensures forall k :: 0 <= k < |Scan(s, i)| ==>
      i <= Scan(s, i)[k].start && Scan(s, i)[k].End() <= |s| && MatchAt(s, Scan(s, i)[k].start) == Some(Scan(s, i)[k])
    decreases |s| - i
  {
    if i < |s| {
      match MatchAt(s, i)
      case Some(o) => ScanSound(s, o.End());
      case None => ScanSound(s, i + 1);
    }
  }

  /** Emitted matches are in text order and do not overlap: each starts at or after the `]]` of every
      earlier one. */
  lemma {:induction false} ScanOrdered(s: string, i: nat)
    requires i <= |s|
    ensures Ordered(Scan(s, i))
    decreases |s| - i
  {
    if i < |s| {
      match MatchAt(s, i)
      case Some(o) =>
        ScanOrdered(s, o.End());
        ScanSound(s, o.End());
        OrderedCons(o, Scan(s, o.End()));
      case None => ScanOrdered(s, i + 1);
    }
  }

  /** Each match ends at or before the start of every later one. */
  predicate Ordered(occs: seq<Occurrence>)
  {
    forall j, k :: 0 <= j < k < |occs| ==> occs[j].End() <= occs[k].start
  }

  lemma OrderedCons(o: Occurrence, rest: seq<Occurrence>)
    requires Ordered(rest)
    requires forall k :: 0 <= k < |rest| ==> o.End() <= rest[k].start
    ensures Ordered([o] + rest)
  {
    var r := [o] + rest;
    forall j, k | 0 <= j < k < |r| ensures r[j].End() <= r[k].start {
      assert r[k] == rest[k - 1];
      if j > 0 {
        assert r[j] == rest[j - 1];
      }
    }
  }

  /** Nothing is skipped: every index from `i` on at which the pattern would match lies inside one of
      the emitted embeds (its own, or an earlier one the scan resumed after). */
  lemma {:induction false} ScanComplete(s: string, i: nat, p: nat)
    requires i <= p < |s| && MatchAt(s, p).Some?
    ensures Covers(Scan(s, i), p)
    decreases |s| - i
  {
    var m := MatchAt(s, i);
    if m.Some? {
      var o := m.value;
      ScanTakesMatch(s, i);
      if o.End() <= p {
        ScanComplete(s, o.End(), p);
      }
      CoversCons(o, Scan(s, o.End()), p);
    } else {
      ScanPassesNonMatch(s, i);
      ScanComplete(s, i + 1, p);
    }
  }

  /** Index `p` lies inside one of the matches. */
  predicate Covers(occs: seq<Occurrence>, p: nat)
  {
    exists k :: 0 <= k < |occs| && occs[k].start <= p < occs[k].End()
  }

  lemma CoversCons(o: Occurrence, rest: seq<Occurrence>, p: nat)
    requires (o.start <= p < o.End()) || Covers(rest, p)
    ensures Covers([o] + rest, p)
  {
    var r := [o] + rest;
    if o.start <= p < o.End() {
      assert r[0] == o;
    } else {
      var k :| 0 <= k < |rest| && rest[k].start <= p < rest[k].End();
      assert r[k + 1] == rest[k];
    }
  }

  /** Where the pattern matches, the scan takes the match and resumes after it. */
  lemma ScanTakesMatch(s: string, i: nat)
    requires i < |s| && MatchAt(s, i).Some?
    ensures Scan(s, i) == [MatchAt(s, i).value] + Scan(s, MatchAt(s, i).value.End())
  {
  }

  /** The scan is empty exactly when the pattern matches nowhere from `i` on. */
  lemma ScanEmptyIff(s: string, i: nat)
    requires i <= |s|
    ensures Scan(s, i) == [] <==> forall p :: i <= p < |s| ==> MatchAt(s, p).None?
  {
    if Scan(s, i) != [] {
      ScanSound(s, i);
      assert MatchAt(s, Scan(s, i)[0].start).Some?;
    }
    if exists p :: i <= p < |s| && MatchAt(s, p).Some? {
      var p :| i <= p < |s| && MatchAt(s, p).Some?;
      ScanComplete(s, i, p);
      assert Covers(Scan(s, i), p);
    }
  }

  /** The scan takes the embed standing at `i` and resumes after its `]]`. */
  lemma ScanTakesEmbed(s: string, i: nat, link: string)
    requires i + |link| + 5 <= |s| && s[i..i + |link| + 5] == EmbedOpen + link + EmbedClose
    requires ']' !in link && IsAudioLinkText(link)
    ensures Scan(s, i) == [Occurrence(i, link)] + Scan(s, i + |link| + 5)
  {
    EmbedTextMatches(s, i, link);
  }

  /** Where the pattern does not match, the scan moves one index on. */
  lemma ScanPassesNonMatch(s: string, i: nat)
    requires i < |s| && MatchAt(s, i).None?
    ensures Scan(s, i) == Scan(s, i + 1)
  {
  }

  /** The scan passes over a character that is not a `!`. */
  lemma ScanSkipsOne(s: string, i: nat)
    requires i < |s| && s[i] != '!'
    ensures Scan(s, i) == Scan(s, i + 1)
  {
  }

  /** The scan passes over indices at which `![[` does not stand. */
  lemma {:induction false} ScanSkips(s: string, i: nat, j: nat)
    requires i <= j <= |s|
    requires forall p: nat :: i <= p < j ==> !HasEmbedOpenAt(s, p)
    ensures Scan(s, i) == Scan(s, j)
    decreases j - i
  {
    if i < j {
      ScanSkips(s, i + 1, j);
    }
  }

  // ---------------------------------------------------------------------------------------------
  // The pattern only looks forward: what is found from index i on depends on s[i..] alone

  /** Where `t` is `s[d..]`, the run starting at `p == d + j` in `s` is the run starting at `j` in `t`. */
  lemma {:induction false} RunEndShift(s: string, t: string, d: nat, j: nat, p: nat)
    requires d <= |s| && s[d..] == t && j <= |t| && p == d + j
    ensures NextIndexOf(s, p, ']') == d + NextIndexOf(t, j, ']')
    decreases |t| - j
  {
    if j < |t| {
      assert t[j] == s[p];
      if t[j] != ']' {
        RunEndShift(s, t, d, j + 1, p + 1);
      }
    }
  }

  lemma EmbedOpenShift(s: string, t: string, d: nat, j: nat, p: nat)
    requires d <= |s| && s[d..] == t && j <= |t| && p == d + j
    ensures HasEmbedOpenAt(s, p) == HasEmbedOpenAt(t, j)
  {
    if j + 3 <= |t| {
      assert s[p] == t[j] && s[p + 1] == t[j + 1] && s[p + 2] == t[j + 2];
    }
  }

  /** The run, and the two characters after it, read the same in `s` from `p` and in `t` from `j`. */
  lemma RunShift(s: string, t: string, d: nat, j: nat, p: nat, e: nat, f: nat)
    requires d <= |s| && s[d..] == t && j + 3 <= |t| && p == d + j
    requires j + 3 <= e <= |t| && f == d + e
    ensures s[p + 3..f] == t[j + 3..e]
    ensures e + 2 <= |t| ==> s[f] == t[e] && s[f + 1] == t[e + 1]
  {
  }

  lemma MatchAtShift(s: string, t: string, d: nat, j: nat, p: nat)
    requires d <= |s| && s[d..] == t && j <= |t| && p == d + j
    ensures MatchAt(s, p).Some? == MatchAt(t, j).Some?
    ensures MatchAt(s, p).Some? ==> MatchAt(s, p).value.link == MatchAt(t, j).value.link
  {
    EmbedOpenShift(s, t, d, j, p);
    if HasEmbedOpenAt(t, j) {
      var e := NextIndexOf(t, j + 3, ']');
      RunEndShift(s, t, d, j + 3, p + 3);
      assert NextIndexOf(s, p + 3, ']') == d + e;
      RunShift(s, t, d, j, p, e, d + e);
    }
  }

  lemma {:induction false} ScanShift(s: string, t: string, d: nat, j: nat, p: nat)
    requires d <= |s| && s[d..] == t && j <= |t| && p == d + j
    ensures Links(Scan(s, p)) == Links(Scan(t, j))
    decreases |t| - j, 1
  {
    if j < |t| {
      if MatchAt(t, j).Some? {
        ScanShiftMatch(s, t, d, j, p);
      } else {
        ScanShiftNonMatch(s, t, d, j, p);
      }
    }
  }

  /** The step of `ScanShift` where both scans take the same link. */
  lemma {:induction false} ScanShiftMatch(s: string, t: string, d: nat, j: nat, p: nat)
    requires d <= |s| && s[d..] == t && j < |t| && p == d + j
    requires MatchAt(t, j).Some?
    ensures Links(Scan(s, p)) == Links(Scan(t, j))
    decreases |t| - j, 0
  {
    MatchAtShift(s, t, d, j, p);
    var o, o' := MatchAt(s, p).value, MatchAt(t, j).value;
    var e := o'.End();
    var f := d + e;
    assert o.link == o'.link;
    assert o.End() == f;
    ScanShift(s, t, d, e, f);
    ScanTakesMatch(s, p);
    ScanTakesMatch(t, j);
    LinksCons(o, Scan(s, f));
    LinksCons(o', Scan(t, e));
    assert Links(Scan(s, p)) == [o.link] + Links(Scan(s, f));
    assert Links(Scan(t, j)) == [o'.link] + Links(Scan(t, e));
  }

  /** The step of `ScanShift` where both scans move on by one character. */
  lemma {:induction false} ScanShiftNonMatch(s: string, t: string, d: nat, j: nat, p: nat)
    requires d <= |s| && s[d..] == t && j < |t| && p == d + j
    requires MatchAt(t, j).None?
    ensures Links(Scan(s, p)) == Links(Scan(t, j))
    decreases |t| - j, 0
  {
    MatchAtShift(s, t, d, j, p);
    ScanShift(s, t, d, j + 1, p + 1);
    ScanPassesNonMatch(s, p);
    ScanPassesNonMatch(t, j);
  }

  lemma LinksCons(o: Occurrence, rest: seq<Occurrence>)
    ensures Links([o] + rest) == [o.link] + Links(rest)
  {
    assert ([o] + rest)[1..] == rest;
  }

  /** What is found from index `d` on is what is found in `s[d..]` alone. */
  lemma ScanSuffix(s: string, t: string, d: nat)
    requires d <= |s| && s[d..] == t
    ensures Links(Scan(s, d)) == Links(Scan(t, 0))
  {
    ScanShift(s, t, d, 0, d);
  }

  lemma SplitAfterEmbed(link: string, rest: string)
    ensures (Embed(link) + rest)[0..|link| + 5] == EmbedOpen + link + EmbedClose
    ensures (Embed(link) + rest)[|link| + 5..] == rest
  {
  }

  /** An audio embed at the front of the content is extracted first, and the rest of the content
      is scanned as if it stood alone. */
  lemma LinksOfLeadingEmbed(link: string, rest: string)
    requires ']' !in link && IsAudioLinkText(link)
    ensures AudioFileLinks(Embed(link) + rest) == [link] + AudioFileLinks(rest)
  {
    var s := Embed(link) + rest;
    var n := |link| + 5;
    SplitAfterEmbed(link, rest);
    ScanTakesEmbed(s, 0, link);
    ScanSuffix(s, rest, n);
    LinksCons(Occurrence(0, link), Scan(s, n));
  }

  /** A leading character other than `!` contributes nothing. */
  lemma LinksSkipLeadingChar(c: char, rest: string)
    requires c != '!'
    ensures AudioFileLinks([c] + rest) == AudioFileLinks(rest)
  {
    var s := [c] + rest;
    ScanSkipsOne(s, 0);
    assert s[1..] == rest;
    ScanSuffix(s, rest, 1);
  }

  /** The embed marker for `link`. */
  function Embed(link: string): string
  {
    EmbedOpen + link + EmbedClose
  }

  /** Embeds separated by single spaces come out one link each, in order; a link embedded twice
      comes out twice. */
  lemma ExtractionKeepsOrderAndDuplicates(a: string, b: string)
    requires ']' !in a && IsAudioLinkText(a) && ']' !in b && IsAudioLinkText(b)
    ensures AudioFileLinks(Embed(a) + " " + Embed(b) + " " + Embed(a)) == [a, b, a]
  {
    var third := Embed(a);
    var second := Embed(b) + (" " + third);
    var whole := Embed(a) + (" " + second);
    assert Embed(a) + " " + Embed(b) + " " + Embed(a) == whole;
    LinksOfLeadingEmbed(a, []);
    assert third == Embed(a) + [];
    LinksSkipLeadingChar(' ', third);
    LinksOfLeadingEmbed(b, " " + third);
    LinksSkipLeadingChar(' ', second);
    LinksOfLeadingEmbed(a, " " + second);
    NoEmbedMarkerNoLinks([]);
  }

  /** The example of the note text `![[a.mp3]] ![[b.wav]] ![[a.mp3]]`. */
  lemma ExtractionExample()
    ensures AudioFileLinks(Embed("a.mp3") + " " + Embed("b.wav") + " " + Embed("a.mp3")) == ["a.mp3", "b.wav", "a.mp3"]
  {
    assert EndsWithExtension("a.mp3", "mp3") && EndsWithExtension("b.wav", "wav");
    ExtractionKeepsOrderAndDuplicates("a.mp3", "b.wav");
  }

  /** The group may itself contain `![[`: `![[![[a.mp3]]` yields `![[a.mp3`, not `a.mp3`. */
  lemma NestedMarkerExample()
    ensures AudioFileLinks(Embed("![[a.mp3")) == ["![[a.mp3"]
  {
    assert EndsWithExtension("![[a.mp3", "mp3");
    LinksOfLeadingEmbed("![[a.mp3", []);
    assert Embed("![[a.mp3") + [] == Embed("![[a.mp3");
    NoEmbedMarkerNoLinks([]);
  }

  /** A non-audio embed yields nothing. */
  lemma PdfEmbedExample()
    ensures AudioFileLinks(Embed("doc.pdf")) == []
  {
    OnlyEmbedNotAudio("doc.pdf");
  }

  /** Extensions are matched case-sensitively: an upper-case extension yields nothing. */
  lemma UpperCaseExtensionExample()
    ensures AudioFileLinks(Embed("A.MP3")) == []
  {
    OnlyEmbedNotAudio("A.MP3");
  }

  /** At least one character must precede the dot. */
  lemma BareExtensionExample()
    ensures AudioFileLinks(Embed(".mp3")) == []
  {
    OnlyEmbedNotAudio(".mp3");
  }

  /** A wiki link without the leading `!` is not an embed. */
  lemma PlainLinkExample()
    ensures AudioFileLinks("[[audio.mp3]]") == []
  {
    NoBangNoLinks("[[audio.mp3]]");
  }

  /** A lone embed of text that is not an audio link, and contains neither `]` nor `!`, yields nothing. */
  lemma OnlyEmbedNotAudio(link: string)
    requires ']' !in link && '!' !in link && !IsAudioLinkText(link)
    ensures AudioFileLinks(Embed(link)) == []
  {
    var s := Embed(link);
    SliceOfEmbed(s, 0, link);
    forall k | 3 <= k < 3 + |link| ensures s[k] != ']' {
      assert s[k] == link[k - 3];
    }
    NextIndexOfAt(s, 3, 3 + |link|, ']');
    assert MatchAt(s, 0).None?;
    ScanPassesNonMatch(s, 0);
    forall p: nat | 1 <= p < |s| ensures !HasEmbedOpenAt(s, p) {
      if p < 3 + |link| && p >= 3 {
        assert s[p] == link[p - 3];
        assert link[p - 3] in link;
      }
    }
    ScanSkips(s, 1, |s|);
  }

  /** A leading embed whose text is not an audio link (and holds no `]` and no `!`) contributes
      nothing: the scan passes over it and goes on with the rest. */
  lemma LinksSkipLeadingNonAudioEmbed(link: string, rest: string)
    requires ']' !in link && '!' !in link && !IsAudioLinkText(link)
    ensures AudioFileLinks(Embed(link) + rest) == AudioFileLinks(rest)
  {
    var s := Embed(link) + rest;
    var n := |link| + 5;
    SplitAfterEmbed(link, rest);
    SliceOfEmbed(s, 0, link);
    forall k | 3 <= k < 3 + |link| ensures s[k] != ']' {
      assert s[k] == link[k - 3];
    }
    NextIndexOfAt(s, 3, 3 + |link|, ']');
    assert MatchAt(s, 0).None?;
    ScanPassesNonMatch(s, 0);
    forall p: nat | 1 <= p < n ensures !HasEmbedOpenAt(s, p) {
      if 3 <= p < 3 + |link| {
        assert s[p] == link[p - 3];
        assert link[p - 3] in link;
      }
    }
    ScanSkips(s, 1, n);
    ScanSuffix(s, rest, n);
  }

  /** Two non-audio embeds separated by a space yield nothing. */
  lemma NonAudioEmbedsYieldNothing(a: string, b: string)
    requires ']' !in a && '!' !in a && !IsAudioLinkText(a)
    requires ']' !in b && '!' !in b && !IsAudioLinkText(b)
    ensures AudioFileLinks(Embed(a) + " " + Embed(b)) == []
  {
    var rest := [' '] + Embed(b);
    assert Embed(a) + " " + Embed(b) == Embed(a) + rest;
    LinksSkipLeadingNonAudioEmbed(a, rest);
    LinksSkipLeadingChar(' ', Embed(b));
    OnlyEmbedNotAudio(b);
  }

  /** Content made of non-audio embeds yields nothing: `![[a.pdf]] ![[b.png]]`. */
  lemma NonAudioEmbedsExample()
    ensures AudioFileLinks(Embed("a.pdf") + " " + Embed("b.png")) == []
  {
    assert !EndsWithExtension("a.pdf", "mp3") && !EndsWithExtension("a.pdf", "webm");
    assert !EndsWithExtension("b.png", "mp3") && !EndsWithExtension("b.png", "webm");
    NonAudioEmbedsYieldNothing("a.pdf", "b.png");
  }

  // ---------------------------------------------------------------------------------------------
  // The same facts about what `extractAudioFileLinks` returns

  /** Each extracted link is non-empty, has no `]`, ends in `.` and a lower-case audio extension with
      something before the dot, and `![[link]]` stands in the content at its recorded position. */
  lemma ExtractedLinksSound(content: string)
    ensures |EmbedPositions(content)| == |AudioFileLinks(content)|
    ensures forall k :: 0 <= k < |AudioFileLinks(content)| ==>
      var l, p := AudioFileLinks(content)[k], EmbedPositions(content)[k];
      && l != [] && ']' !in l && IsAudioLinkText(l)
      && p + |l| + 5 <= |content| && content[p..p + |l| + 5] == EmbedOpen + l + EmbedClose
  {
    var occs := Scan(content, 0);
    ScanSound(content, 0);
    forall k | 0 <= k < |occs|
      ensures content[occs[k].start..occs[k].End()] == EmbedOpen + occs[k].link + EmbedClose
      ensures IsAudioLinkText(occs[k].link) && ']' !in occs[k].link
    {
      MatchAtSound(content, occs[k].start);
    }
  }

  /** The embeds behind the extracted links appear left to right and do not overlap. */
  lemma ExtractedLinksInOrder(content: string)
    ensures |EmbedPositions(content)| == |AudioFileLinks(content)|
    ensures forall j, k :: 0 <= j < k < |AudioFileLinks(content)| ==>
      EmbedPositions(content)[j] + |AudioFileLinks(content)[j]| + 5 <= EmbedPositions(content)[k]
  {
    ScanOrdered(content, 0);
  }

  /** The extraction is empty exactly when the pattern matches nowhere in the content. */
  lemma NoLinksIff(content: string)
    ensures AudioFileLinks(content) == [] <==> forall p :: 0 <= p < |content| ==> MatchAt(content, p).None?
  {
    ScanEmptyIff(content, 0);
  }

  /** Content without a `!` (a bare `[[x.mp3]]` link, for one) has no audio links. */
  lemma NoBangNoLinks(content: string)
    requires '!' !in content
    ensures AudioFileLinks(content) == []
  {
    forall p: nat ensures !HasEmbedOpenAt(content, p) {
      if p < |content| {
        assert content[p] in content;
      }
    }
    NoEmbedMarkerNoLinks(content);
  }

  /** Content in which `![[` never occurs (empty content, for one) has no audio links. */
  lemma NoEmbedMarkerNoLinks(content: string)
    requires forall p: nat :: !HasEmbedOpenAt(content, p)
    ensures AudioFileLinks(content) == []
  {
    ScanEmptyIff(content, 0);
  }
}
