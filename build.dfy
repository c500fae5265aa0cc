/** The pipeline logic of the shorts bot: deciding which story to narrate,
    cutting it into voiced sentences, and serialising those sentences as an
    SSML 1.1 document for the speech synthesiser. The HTTP request, the
    random source, the synthesiser, the video encoder and the uploader are
    outside the model; randomness arrives as parameters. */
module Build {
  import opened PyStr

  /** Neural voices the synthesiser may be asked for. */
  const Voices: seq<string> := ["en-US-JennyNeural", "en-US-GuyNeural", "en-GB-SoniaNeural"]

  /** Stories narrated when the generator fails or answers with code. Each
      is written as a concatenation of short literals only so that the
      verifier can reason about its individual characters; the text is the
      three stories verbatim. */
  const FallbackStories: seq<string> := [Fallback0, Fallback1, Fallback2]

  const Fallback0: string := "Dad worked hard, " + "but his son " + "never understood. " + "One day, " + "roles reversed."
  const Fallback1: string := "A rich girl " + "mocked a poor boy. " + "Years later, " + "she begged him " + "for a job."
  const Fallback2: string := "Brother stole " + "from sister. " + "She forgave. " + "He saved her " + "life one day."

  /** A draw of `random.choice` over the fallback stories. */
  type FallbackIndex = i: nat | i < |FallbackStories|

  /** A draw of `random.choice` over the voices. */
  type VoiceIndex = i: nat | i < |Voices|

  /** What the generator request produced: the story text found at
      `candidates[0].content.parts[0].text`, or `Failed` for anything that
      raised on the way there (network error, bad JSON, missing field). */
  datatype Response = Ok(story: string) | Failed

  // ---------------------------------------------------------------------
  // Story acceptance and fallback

  /** The generator's answer is refused when it looks like code. */
  predicate LooksLikeCode(story: string) {
    Contains(story, "def") || Contains(story, "{")
  }

  /** The story to narrate: the generator's answer, stripped, when it
      arrived and does not look like code; otherwise the fallback story the
      random draw `pick` selects. */
  function GenerateStory(response: Response, pick: FallbackIndex): (story: string)
    ensures story in FallbackStories || (response.Ok? && story == Strip(response.story))
    ensures response.Failed? ==> story == FallbackStories[pick]
    ensures response.Ok? && LooksLikeCode(response.story) ==> story == FallbackStories[pick]
    ensures response.Ok? && !LooksLikeCode(response.story) ==> story == Strip(response.story)
  {
    match response
    case Ok(text) => if LooksLikeCode(text) then FallbackStories[pick] else Strip(text)
    case Failed => FallbackStories[pick]
  }

  /** An answer that looks like code is never narrated; the drawn
      fallback story is narrated instead. */
  lemma CodeIsRejected(text: string, pick: FallbackIndex)
    requires LooksLikeCode(text)
    ensures GenerateStory(Ok(text), pick) == FallbackStories[pick]
  {
  }

  /** No `d` `e` `f` run, character by character. */
  predicate NoDefRun(s: string) {
    forall k :: 0 <= k < |s| - 2 ==> !(s[k] == 'd' && s[k + 1] == 'e' && s[k + 2] == 'f')
  }

  /** No `d` `e` `f` run and no `{`, character by character. */
  predicate FreeOfCodeMarkers(s: string) {
    NoDefRun(s) && '{' !in s
  }

  /** A run cannot straddle a space, so two run-free texts joined after a
      space are run-free. */
  lemma NoDefRunConcat(a: string, b: string)
    requires a != [] && a[|a| - 1] == ' '
    requires NoDefRun(a) && NoDefRun(b)
    ensures NoDefRun(a + b)
  {
    var s := a + b;
    forall k | 0 <= k < |s| - 2 ensures !(s[k] == 'd' && s[k + 1] == 'e' && s[k + 2] == 'f') {
      if k + 2 < |a| {
        assert s[k] == a[k] && s[k + 1] == a[k + 1] && s[k + 2] == a[k + 2];
      } else if k >= |a| {
        assert s[k] == b[k - |a|] && s[k + 1] == b[k - |a| + 1] && s[k + 2] == b[k - |a| + 2];
      } else if k == |a| - 1 {
        assert s[k] == ' ';
      } else {
        assert s[k + 1] == ' ';
      }
    }
  }

  /** A text without the marker characters is not refused. */
  lemma MarkerFreeIsNotCode(s: string)
    requires FreeOfCodeMarkers(s)
    ensures !LooksLikeCode(s)
  {
    ContainsIff(s, "def");
    ContainsIff(s, "{");
    forall k | 0 <= k && k + 3 <= |s| ensures !OccursAt(s, "def", k) {
      assert s[k..k + 3][0] == s[k] && s[k..k + 3][1] == s[k + 1] && s[k..k + 3][2] == s[k + 2];
    }
    forall k | 0 <= k && k + 1 <= |s| ensures !OccursAt(s, "{", k) {
      assert s[k..k + 1][0] == s[k];
    }
  }

  /** What the fallback stories are made of: no code markers, no
      whitespace at either end, and a first character that is not a
      `'.'`. */
  predicate FallbackShape(s: string) {
    FreeOfCodeMarkers(s) && NoEdgeSpace(s) && s != [] && s[0] != '.'
  }

  lemma FallbackChars(i: FallbackIndex)
    ensures FallbackShape(FallbackStories[i])
  {
    if i == 0 {
      FallbackChars0();
    } else if i == 1 {
      FallbackChars1();
    } else {
      FallbackChars2();
    }
  }

  lemma FallbackChars0()
    ensures FallbackShape(Fallback0)
  {
    NoDef0();
    assert '{' !in Fallback0;
    assert Fallback0[0] == 'D' && Fallback0[|Fallback0| - 1] == '.';
  }

  lemma NoDef0()
    ensures NoDefRun(Fallback0)
  {
    var c0, c1, c2, c3, c4 := "Dad worked hard, ", "but his son ", "never understood. ", "One day, ", "roles reversed.";
    assert NoDefRun(c0) && NoDefRun(c1) && NoDefRun(c2) && NoDefRun(c3) && NoDefRun(c4);
    NoDefRunConcat(c0, c1);
    NoDefRunConcat(c0 + c1, c2);
    NoDefRunConcat(c0 + c1 + c2, c3);
    NoDefRunConcat(c0 + c1 + c2 + c3, c4);
  }

  lemma FallbackChars1()
    ensures FallbackShape(Fallback1)
  {
    NoDef1();
    assert '{' !in Fallback1;
    assert Fallback1[0] == 'A' && Fallback1[|Fallback1| - 1] == '.';
  }

  lemma NoDef1()
    ensures NoDefRun(Fallback1)
  {
    var c0, c1, c2, c3, c4 := "A rich girl ", "mocked a poor boy. ", "Years later, ", "she begged him ", "for a job.";
    assert NoDefRun(c0) && NoDefRun(c1) && NoDefRun(c2) && NoDefRun(c3) && NoDefRun(c4);
    NoDefRunConcat(c0, c1);
    NoDefRunConcat(c0 + c1, c2);
    NoDefRunConcat(c0 + c1 + c2, c3);
    NoDefRunConcat(c0 + c1 + c2 + c3, c4);
  }

  lemma FallbackChars2()
    ensures FallbackShape(Fallback2)
  {
    NoDef2();
    assert '{' !in Fallback2;
    assert Fallback2[0] == 'B' && Fallback2[|Fallback2| - 1] == '.';
  }

  lemma NoDef2()
    ensures NoDefRun(Fallback2)
  {
    var c0, c1, c2, c3, c4 := "Brother stole ", "from sister. ", "She forgave. ", "He saved her ", "life one day.";
    assert NoDefRun(c0) && NoDefRun(c1) && NoDefRun(c2) && NoDefRun(c3) && NoDefRun(c4);
    NoDefRunConcat(c0, c1);
    NoDefRunConcat(c0 + c1, c2);
    NoDefRunConcat(c0 + c1 + c2, c3);
    NoDefRunConcat(c0 + c1 + c2 + c3, c4);
  }

  /** None of the fallback stories would itself be refused. */
  lemma FallbacksAreClean(i: FallbackIndex)
    ensures !LooksLikeCode(FallbackStories[i])
  {
    FallbackChars(i);
    MarkerFreeIsNotCode(FallbackStories[i]);
  }

  /** Whichever path is taken, the narrated story contains neither `def`
      nor `{`. */
  lemma StoryNeverLooksLikeCode(response: Response, pick: FallbackIndex)
    ensures !LooksLikeCode(GenerateStory(response, pick))
  {
    FallbacksAreClean(pick);
    if response.Ok? {
      StripKeepsAbsence(response.story, "def");
      StripKeepsAbsence(response.story, "{");
    }
  }

  /** Whichever path is taken, the narrated story has no whitespace at
      either end, so stripping it again changes nothing. */
  lemma StoryIsStripped(response: Response, pick: FallbackIndex)
    ensures NoEdgeSpace(GenerateStory(response, pick))
    ensures Strip(GenerateStory(response, pick)) == GenerateStory(response, pick)
  {
    FallbackChars(pick);
    StripFixedPoint(GenerateStory(response, pick));
  }

  // ---------------------------------------------------------------------
  // Sentence splitting

  /** One narrated sentence and the voice that reads it. */
  datatype Line = Line(text: string, voice: string)

  /** Every piece stripped, in order. */
  function StripAll(pieces: seq<string>): (r: seq<string>)
    ensures |r| == |pieces|
    ensures forall k :: 0 <= k < |r| ==> r[k] == Strip(pieces[k])
  {
    seq(|pieces|, k requires 0 <= k < |pieces| => Strip(pieces[k]))
  }

  /** The non-empty members of `xs`, in order. */
  function NonEmpty(xs: seq<string>): seq<string>
    decreases |xs|
  {
    if xs == [] then [] else (if xs[0] == [] then [] else [xs[0]]) + NonEmpty(xs[1..])
  }

  /** Each member kept is a non-empty member of the input. */
  lemma {:induction false} NonEmptyMember(xs: seq<string>, k: nat) returns (j: nat)
    requires k < |NonEmpty(xs)|
    ensures j < |xs| && xs[j] != [] && NonEmpty(xs)[k] == xs[j]
    decreases |xs|
  {
    var front := if xs[0] == [] then [] else [xs[0]];
    var rest := NonEmpty(xs[1..]);
    assert NonEmpty(xs) == front + rest;
    if k < |front| {
      j := 0;
    } else {
      var i := NonEmptyMember(xs[1..], k - |front|);
      assert NonEmpty(xs)[k] == rest[k - |front|];
      j := i + 1;
    }
  }

  /** No more members are kept than there are. */
  lemma {:induction false} NonEmptyLength(xs: seq<string>)
    ensures |NonEmpty(xs)| <= |xs|
    decreases |xs|
  {
    if xs != [] {
      NonEmptyLength(xs[1..]);
    }
  }

  /** Keeping the non-empty members of two lists side by side. */
  lemma {:induction false} NonEmptyConcat(a: seq<string>, b: seq<string>)
    ensures NonEmpty(a + b) == NonEmpty(a) + NonEmpty(b)
    decreases |a|
  {
    if a == [] {
      assert a + b == b;
    } else {
      assert (a + b)[0] == a[0];
      assert (a + b)[1..] == a[1..] + b;
      NonEmptyConcat(a[1..], b);
    }
  }

  /** The sentences of `text`: its `'.'`-separated pieces, stripped, blank
      ones dropped. */
  function Sentences(text: string): seq<string> {
    NonEmpty(StripAll(Split(text, '.')))
  }

  /** Each sentence is the stripped form of a non-blank piece of the
      split. */
  lemma SentenceSource(text: string, k: nat) returns (j: nat)
    requires k < |Sentences(text)|
    ensures j < |Split(text, '.')| && Sentences(text)[k] == Strip(Split(text, '.')[j])
    ensures Sentences(text)[k] != []
  {
    j := NonEmptyMember(StripAll(Split(text, '.')), k);
  }

  /** `split_lines`: each sentence of `text`, in order, paired with a voice;
      `choose(k)` is the voice drawn for the k-th sentence kept. */
  function SplitLines(text: string, choose: nat -> VoiceIndex): (lines: seq<Line>)
    ensures |lines| == |Sentences(text)| <= multiset(text)['.'] + 1
    ensures forall k :: 0 <= k < |lines| ==> lines[k].text == Sentences(text)[k]
    ensures forall k :: 0 <= k < |lines| ==> lines[k].voice == Voices[choose(k)] && lines[k].voice in Voices
    ensures forall k :: 0 <= k < |lines| ==> lines[k].text != [] && NoEdgeSpace(lines[k].text) && '.' !in lines[k].text
  {
    SentencesShape(text);
    Voiced(Sentences(text), choose)
  }

  /** Every sentence is non-empty, has no whitespace at either end and no
      `'.'`, and there is at most one more sentence than there are dots. */
  lemma SentencesShape(text: string)
    ensures |Sentences(text)| <= multiset(text)['.'] + 1
    ensures forall k :: 0 <= k < |Sentences(text)| ==>
      Sentences(text)[k] != [] && NoEdgeSpace(Sentences(text)[k]) && '.' !in Sentences(text)[k]
  {
    SplitCount(text, '.');
    NonEmptyLength(StripAll(Split(text, '.')));
    forall k | 0 <= k < |Sentences(text)|
      ensures Sentences(text)[k] != [] && NoEdgeSpace(Sentences(text)[k]) && '.' !in Sentences(text)[k]
    {
      var j := SentenceSource(text, k);
      StripChars(Split(text, '.')[j], '.');
    }
  }

  /** Pairs the k-th sentence with the k-th voice drawn. */
  function Voiced(sentences: seq<string>, choose: nat -> VoiceIndex): (lines: seq<Line>)
    ensures |lines| == |sentences|
    ensures forall k :: 0 <= k < |lines| ==> lines[k] == Line(sentences[k], Voices[choose(k)])
  {
    seq(|sentences|, k requires 0 <= k < |sentences| => Line(sentences[k], Voices[choose(k)]))
  }

  /** A character absent from the text is absent from every sentence. */
  lemma SentencesAvoid(text: string, c: char)
    requires c !in text
    ensures forall k :: 0 <= k < |Sentences(text)| ==> c !in Sentences(text)[k]
  {
    SplitAvoids(text, '.', c);
    forall k | 0 <= k < |Sentences(text)| ensures c !in Sentences(text)[k] {
      var j := SentenceSource(text, k);
      StripChars(Split(text, '.')[j], c);
    }
  }

  /** A stretch of text without a `'.'` is one sentence, unless it is
      blank. */
  lemma SentencesOfSegment(segment: string)
    requires '.' !in segment
    ensures Sentences(segment) == if AllSpace(segment) then [] else [Strip(segment)]
  {
    SplitNoSep(segment, '.');
    var t := Strip(segment);
    assert StripAll([segment]) == [t];
    assert [t][1..] == [];
    assert NonEmpty([t]) == (if t == [] then [] else [t]) + NonEmpty([]);
    StripEmptyIff(segment);
  }

  /** Sentences come out left to right: the sentences before a `'.'` are
      followed by the sentences after it. */
  lemma SentencesConcat(a: string, b: string)
    ensures Sentences(a + ['.'] + b) == Sentences(a) + Sentences(b)
  {
    var pa, pb := Split(a, '.'), Split(b, '.');
    SplitConcat(a, b, '.');
    assert StripAll(pa + pb) == StripAll(pa) + StripAll(pb);
    NonEmptyConcat(StripAll(pa), StripAll(pb));
  }

  /** Only whitespace and `'.'`. */
  predicate DotsAndSpace(s: string) {
    forall i :: 0 <= i < |s| ==> s[i] == '.' || IsSpace(s[i])
  }

  /** A text has no sentence exactly when it is made of dots and
      whitespace only. */
  lemma {:induction false} SentencesEmptyIff(text: string)
    ensures Sentences(text) == [] <==> DotsAndSpace(text)
    decreases |text|
  {
    if '.' in text {
      var i :| 0 <= i < |text| && text[i] == '.';
      var a, b := text[..i], text[i + 1..];
      assert text == a + ['.'] + b;
      SentencesConcat(a, b);
      SentencesEmptyIff(a);
      SentencesEmptyIff(b);
      DotsAndSpaceConcat(a, b);
    } else {
      SentencesOfSegment(text);
    }
  }

  lemma DotsAndSpaceConcat(a: string, b: string)
    ensures DotsAndSpace(a + ['.'] + b) <==> DotsAndSpace(a) && DotsAndSpace(b)
  {
    var s := a + ['.'] + b;
    assert forall k :: 0 <= k < |a| ==> s[k] == a[k];
    assert forall k :: 0 <= k < |b| ==> s[|a| + 1 + k] == b[k];
    if DotsAndSpace(a) && DotsAndSpace(b) {
      forall k | 0 <= k < |s| ensures s[k] == '.' || IsSpace(s[k]) {
        if k < |a| {
          assert s[k] == a[k];
        } else if k > |a| {
          assert s[k] == b[k - |a| - 1];
        }
      }
    }
  }

  /** Stripping removes only whitespace, so it does not change whether a
      text is made of dots and whitespace. */
  lemma StripDotsAndSpace(s: string)
    ensures DotsAndSpace(Strip(s)) <==> DotsAndSpace(s)
  {
    var i, j := StripBounds(s);
    SpaceOutside(s, i, j);
    assert forall k :: 0 <= k < j - i ==> Strip(s)[k] == s[i + k];
    if DotsAndSpace(Strip(s)) {
      forall k | 0 <= k < |s| ensures s[k] == '.' || IsSpace(s[k]) {
        if i <= k < j { assert s[k] == Strip(s)[k - i]; }
      }
    }
  }

  /** Every fallback story has at least one sentence. */
  lemma FallbacksHaveSentences(i: FallbackIndex)
    ensures Sentences(FallbackStories[i]) != []
  {
    SentencesEmptyIff(FallbackStories[i]);
    FallbackChars(i);
    assert !DotsAndSpace(FallbackStories[i]) by {
      assert FallbackStories[i][0] != '.' && !IsSpace(FallbackStories[i][0]);
    }
  }

  /** `lines[0][0]` in the driver is defined exactly when the story has a
      sentence: always on the fallback path, and on the accepted path
      unless the generator's answer is made of dots and whitespace only. */
  lemma FirstLineExists(response: Response, pick: FallbackIndex, choose: nat -> VoiceIndex)
    ensures SplitLines(GenerateStory(response, pick), choose) == []
        <==> response.Ok? && !LooksLikeCode(response.story) && DotsAndSpace(response.story)
  {
    var story := GenerateStory(response, pick);
    if response.Ok? && !LooksLikeCode(response.story) {
      SentencesEmptyIff(story);
      StripDotsAndSpace(response.story);
    } else {
      FallbacksHaveSentences(pick);
    }
  }

  // ---------------------------------------------------------------------
  // SSML serialisation

  /** The fixed envelope around every document. */
  const SpeakOpen: string := "<speak><prosody rate='85%' pitch='+3%'>"
  const SpeakClose: string := "</prosody></speak>"

  /** The pause between two sentences. */
  const Pause: string := "<break time='600ms'/>"

  /** The markup around each sentence: `VoiceOpen` voice `VoiceBody` text
      `BlockEnd`, where `BlockEnd` puts the full stop back. */
  const VoiceOpen: string := "<voice name=\""
  const VoiceBody: string := "\"><p>"
  const BlockEnd: string := ".</p></voice>"

  /** One sentence in its voice, with its full stop put back; text and voice
      are copied without escaping. */
  function Block(line: Line): string {
    VoiceOpen + line.voice + VoiceBody + line.text + BlockEnd
  }

  function Blocks(lines: seq<Line>): (blocks: seq<string>)
    ensures |blocks| == |lines|
  {
    seq(|lines|, k requires 0 <= k < |lines| => Block(lines[k]))
  }

  /** `ssml`: the blocks joined by pauses, inside the envelope. */
  function Ssml(lines: seq<Line>): (doc: string)
    ensures |doc| >= |SpeakOpen| + |SpeakClose|
    ensures doc[..|SpeakOpen|] == SpeakOpen && doc[|doc| - |SpeakClose|..] == SpeakClose
    ensures lines == [] ==> doc == SpeakOpen + SpeakClose
  {
    var doc := SpeakOpen + Join(Blocks(lines), Pause) + SpeakClose;
    assert doc[..|SpeakOpen|] == SpeakOpen;
    assert doc[|doc| - |SpeakClose|..] == SpeakClose;
    doc
  }

  /** Every sentence's block appears verbatim in the document. */
  lemma SsmlHasEveryBlock(lines: seq<Line>, k: nat)
    requires k < |lines|
    ensures Contains(Ssml(lines), Block(lines[k]))
  {
    var inner := Join(Blocks(lines), Pause);
    JoinContainsPiece(Blocks(lines), Pause, k);
    assert Ssml(lines)[|SpeakOpen|..|SpeakOpen| + |inner|] == inner;
    ContainsSlice(Ssml(lines), |SpeakOpen|, |SpeakOpen| + |inner|, Block(lines[k]));
  }

  /** The document grows by exactly one pause between consecutive blocks:
      its length is the envelope, the blocks and `|lines| - 1` pauses. */
  lemma SsmlLength(lines: seq<Line>)
    requires lines != []
    ensures |Ssml(lines)| == |SpeakOpen| + |SpeakClose| + TotalLength(Blocks(lines)) + (|lines| - 1) * |Pause|
  {
    JoinLength(Blocks(lines), Pause);
  }

  /** Two lists of sentences serialise to the two documents' bodies with a
      pause between them. */
  lemma SsmlConcat(a: seq<Line>, b: seq<Line>)
    requires a != [] && b != []
    ensures Ssml(a + b) == SpeakOpen + Join(Blocks(a), Pause) + Pause + Join(Blocks(b), Pause) + SpeakClose
  {
    assert Blocks(a + b) == Blocks(a) + Blocks(b);
    JoinConcat(Blocks(a), Blocks(b), Pause);
  }

  /** Without escaping, two different lists of sentences can give the same
      document: markup inside a sentence is indistinguishable from the
      markup around it. */
  lemma SsmlIsAmbiguous(x: string, y: string, v: string)
    ensures var merged := Line(x + BlockEnd + Pause + (VoiceOpen + v + VoiceBody) + y, v);
            && [Line(x, v), Line(y, v)] != [merged]
            && Ssml([Line(x, v), Line(y, v)]) == Ssml([merged])
  {
    var open := VoiceOpen + v + VoiceBody;
    var l1, l2 := Line(x, v), Line(y, v);
    var merged := Line(x + BlockEnd + Pause + open + y, v);
    assert Blocks([l1, l2]) == [Block(l1), Block(l2)];
    assert Blocks([merged]) == [Block(merged)];
    assert [Block(l1), Block(l2)][1..] == [Block(l2)];
    assert Join([Block(l1), Block(l2)], Pause) == Block(l1) + Pause + Block(l2);
    Regroup(open, x, BlockEnd, Pause, y);
  }

  /** Concatenation regrouped around a middle part. */
  lemma Regroup(open: string, x: string, close: string, pause: string, y: string)
    ensures open + x + close + pause + (open + y + close) == open + (x + close + pause + open + y) + close
  {
  }
}
