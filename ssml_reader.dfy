/** A reader for the documents `Build.Ssml` writes. It takes the envelope
    off, then reads blocks separated by pauses. It is the inverse the
    serialiser is checked against: for sentences whose text has no `<` and
    voices that have no `"`, reading back a document gives exactly the
    sentences it was written from, in order, with their voices. */
module SsmlReader {
  import opened PyStr
  import opened Build

  datatype Option<T> = None | Some(value: T)

  predicate StartsWith(s: string, prefix: string) {
    |prefix| <= |s| && s[..|prefix|] == prefix
  }

  /** The longest prefix of `s` without `stop`. */
  function TakeUntil(s: string, stop: char): (r: string)
    ensures |r| <= |s| && r == s[..|r|] && stop !in r
    ensures |r| < |s| ==> s[|r|] == stop
    decreases |s|
  {
    if s == [] || s[0] == stop then [] else [s[0]] + TakeUntil(s[1..], stop)
  }

  /** Reading up to `stop` stops exactly at the end of a `stop`-free
      prefix that `stop` follows. */
  lemma {:induction false} TakeUntilPrefix(x: string, y: string, stop: char)
    requires stop !in x && y != [] && y[0] == stop
    ensures TakeUntil(x + y, stop) == x
    decreases |x|
  {
    if x == [] {
      assert x + y == y;
    } else {
      assert (x + y)[0] == x[0];
      assert (x + y)[1..] == x[1..] + y;
      TakeUntilPrefix(x[1..], y, stop);
      assert x == [x[0]] + x[1..];
    }
  }

  /** The paragraph and voice closing tags after the full stop. */
  const ParaClose: string := "</p></voice>"

  lemma BlockEndSplit()
    ensures BlockEnd == ['.'] + ParaClose
  {
  }

  /** One block at the front of `s`: its sentence and voice, and what
      follows it. */
  function ReadBlock(s: string): (r: Option<(Line, string)>)
    ensures r.Some? ==> |r.value.1| < |s|
  {
    if !StartsWith(s, VoiceOpen) then None
    else
      var afterOpen := s[|VoiceOpen|..];
      var voice := TakeUntil(afterOpen, '"');
      var afterVoice := afterOpen[|voice|..];
      if !StartsWith(afterVoice, VoiceBody) then None
      else
        var afterBody := afterVoice[|VoiceBody|..];
        var sentence := TakeUntil(afterBody, '<');
        var afterText := afterBody[|sentence|..];
        if sentence == [] || sentence[|sentence| - 1] != '.' || !StartsWith(afterText, ParaClose) then None
        else Some((Line(sentence[..|sentence| - 1], voice), afterText[|ParaClose|..]))
  }

  /** Blocks separated by pauses, up to the end of `s`. */
  function ReadBlocks(s: string): Option<seq<Line>>
    decreases |s|
  {
    match ReadBlock(s)
    case None => None
    case Some((line, rest)) =>
      if rest == [] then Some([line])
      else if !StartsWith(rest, Pause) then None
      else
        match ReadBlocks(rest[|Pause|..])
        case None => None
        case Some(more) => Some([line] + more)
  }

  /** A whole document: the envelope around zero or more blocks. */
  function ReadSsml(doc: string): Option<seq<Line>> {
    if |doc| < |SpeakOpen| + |SpeakClose| || !StartsWith(doc, SpeakOpen) || doc[|doc| - |SpeakClose|..] != SpeakClose then None
    else
      var body := doc[|SpeakOpen|..|doc| - |SpeakClose|];
      if body == [] then Some([]) else ReadBlocks(body)
  }

  /** Sentences whose text and voice cannot be mistaken for markup. */
  predicate Plain(lines: seq<Line>) {
    forall k :: 0 <= k < |lines| ==> '"' !in lines[k].voice && '<' !in lines[k].text
  }

  /** A block reads back as the sentence it was written from, and reading
      stops right after it. */
  lemma ReadBlockOf(line: Line, rest: string)
    requires '"' !in line.voice && '<' !in line.text
    ensures ReadBlock(Block(line) + rest) == Some((line, rest))
  {
    var v, t := line.voice, line.text;
    var s := Block(line) + rest;
    var afterBody := t + (BlockEnd + rest);
    var afterVoice := VoiceBody + afterBody;
    var afterOpen := v + afterVoice;
    Regroup4(VoiceOpen, v, VoiceBody, t, BlockEnd, rest);
    assert s == VoiceOpen + afterOpen;
    assert s[|VoiceOpen|..] == afterOpen;
    assert VoiceBody[0] == '"';
    TakeUntilPrefix(v, afterVoice, '"');
    assert afterOpen[|v|..] == afterVoice;
    assert afterVoice[..|VoiceBody|] == VoiceBody;
    assert afterVoice[|VoiceBody|..] == afterBody;
    var sentence := t + ['.'];
    BlockEndSplit();
    assert afterBody == sentence + (ParaClose + rest);
    assert ParaClose[0] == '<';
    TakeUntilPrefix(sentence, ParaClose + rest, '<');
    assert afterBody[|sentence|..] == ParaClose + rest;
    assert (ParaClose + rest)[..|ParaClose|] == ParaClose;
    assert (ParaClose + rest)[|ParaClose|..] == rest;
    assert sentence[..|sentence| - 1] == t;
  }

  /** Concatenation regrouped to the right. */
  lemma Regroup4(a: string, b: string, c: string, d: string, e: string, f: string)
    ensures a + b + c + d + e + f == a + (b + (c + (d + (e + f))))
  {
  }

  /** Blocks joined by pauses read back as the sentences, in order. */
  lemma {:induction false} ReadBlocksOf(lines: seq<Line>)
    requires lines != [] && Plain(lines)
    ensures ReadBlocks(Join(Blocks(lines), Pause)) == Some(lines)
    decreases |lines|
  {
    if |lines| == 1 {
      ReadLastBlock(lines);
    } else {
      PlainTail(lines);
      ReadBlocksOf(lines[1..]);
      JoinBlocksCons(lines);
      ReadBlockThenPause(lines[0], Join(Blocks(lines[1..]), Pause), lines[1..]);
      assert lines == [lines[0]] + lines[1..];
    }
  }

  lemma PlainTail(lines: seq<Line>)
    requires lines != [] && Plain(lines)
    ensures Plain(lines[1..])
  {
    forall k | 0 <= k < |lines| - 1 ensures '"' !in lines[1..][k].voice && '<' !in lines[1..][k].text {
      assert lines[1..][k] == lines[k + 1];
    }
  }

  /** A block alone reads back as its sentence. */
  lemma ReadLastBlock(lines: seq<Line>)
    requires |lines| == 1 && Plain(lines)
    ensures ReadBlocks(Join(Blocks(lines), Pause)) == Some(lines)
  {
    var line := lines[0];
    assert Blocks(lines) == [Block(line)];
    assert Block(line) + [] == Block(line);
    ReadBlockOf(line, []);
    assert lines == [line];
  }

  /** The join of the blocks, first block split off. */
  lemma JoinBlocksCons(lines: seq<Line>)
    requires |lines| > 1
    ensures Join(Blocks(lines), Pause) == Block(lines[0]) + Pause + Join(Blocks(lines[1..]), Pause)
  {
    assert Blocks(lines) == [Block(lines[0])] + Blocks(lines[1..]);
    JoinCons(Block(lines[0]), Blocks(lines[1..]), Pause);
  }

  /** A block, a pause, then blocks that read back as `more`. */
  lemma ReadBlockThenPause(line: Line, tail: string, more: seq<Line>)
    requires '"' !in line.voice && '<' !in line.text
    requires ReadBlocks(tail) == Some(more)
    ensures ReadBlocks(Block(line) + Pause + tail) == Some([line] + more)
  {
    var rest := Pause + tail;
    var s := Block(line) + rest;
    assert Block(line) + Pause + tail == s;
    ReadBlockOf(line, rest);
    assert ReadBlock(s) == Some((line, rest));
    assert rest != [] && StartsWith(rest, Pause) && rest[|Pause|..] == tail;
  }

  /** Reading back a document gives the sentences it was written from. */
  lemma SsmlRoundTrip(lines: seq<Line>)
    requires Plain(lines)
    ensures ReadSsml(Ssml(lines)) == Some(lines)
  {
    var body := Join(Blocks(lines), Pause);
    var doc := Ssml(lines);
    assert doc == SpeakOpen + body + SpeakClose;
    assert doc[|SpeakOpen|..|doc| - |SpeakClose|] == body;
    if lines != [] {
      ReadBlocksOf(lines);
      assert body != [] by {
        JoinLength(Blocks(lines), Pause);
        assert |Block(lines[0])| > 0;
        assert TotalLength(Blocks(lines)) >= |Blocks(lines)[0]|;
      }
    }
  }

  /** The voices are plain. */
  lemma VoicesArePlain(i: VoiceIndex)
    ensures '"' !in Voices[i]
  {
  }

  /** The voiced sentences of a story without `<` read back from the
      document exactly. */
  lemma SplitLinesReadBack(text: string, choose: nat -> VoiceIndex)
    requires '<' !in text
    ensures ReadSsml(Ssml(SplitLines(text, choose))) == Some(SplitLines(text, choose))
  {
    var lines := SplitLines(text, choose);
    SentencesAvoid(text, '<');
    forall k | 0 <= k < |lines| ensures '"' !in lines[k].voice && '<' !in lines[k].text {
      VoicesArePlain(choose(k));
    }
    SsmlRoundTrip(lines);
  }
}
