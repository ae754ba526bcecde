/** `chunk_text` of rag/data_loader.py: the corpus is cut at paragraph
    breaks, every piece is stripped, and blank pieces are dropped. */
module Chunker {
  import opened Text

  /** The paragraph boundary the corpus is split on. */
  const ParagraphBreak: String := "\n\n"

  /** A chunk as the chunker hands it out: not empty, already stripped,
      and holding no paragraph break. */
  predicate IsChunk(c: String) {
    && c != []
    && Strip(c) == c
    && !Contains(c, ParagraphBreak)
  }

  /** `[seg.strip() for seg in segments if seg.strip()]`. */
  function Clean(segments: seq<String>): (chunks: seq<String>)
    ensures |chunks| <= |segments|
  {
    if segments == [] then []
    else
      var c := Strip(segments[0]);
      (if c == [] then [] else [c]) + Clean(segments[1..])
  }

  /** Every kept piece is the non-empty strip of one of the segments, and
      stripping it again changes nothing. */
  lemma {:induction false} CleanElement(segments: seq<String>, j: nat)
    requires j < |Clean(segments)|
    ensures Clean(segments)[j] != []
    ensures Strip(Clean(segments)[j]) == Clean(segments)[j]
    ensures exists k | 0 <= k < |segments| :: Clean(segments)[j] == Strip(segments[k])
  {
    var c := Strip(segments[0]);
    var rest := Clean(segments[1..]);
    if c != [] {
      assert Clean(segments) == [c] + rest;
      if j == 0 {
        StripIdempotent(segments[0]);
        assert Clean(segments)[j] == Strip(segments[0]);
      } else {
        CleanElement(segments[1..], j - 1);
        var k :| 0 <= k < |segments[1..]| && rest[j - 1] == Strip(segments[1..][k]);
        assert Clean(segments)[j] == Strip(segments[k + 1]);
      }
    } else {
      assert Clean(segments) == rest;
      CleanElement(segments[1..], j);
      var k :| 0 <= k < |segments[1..]| && rest[j] == Strip(segments[1..][k]);
      assert Clean(segments)[j] == Strip(segments[k + 1]);
    }
  }

  /** `chunk_text(text)`. */
  function ChunkText(text: String): (chunks: seq<String>)
    ensures text == [] ==> chunks == []
    ensures |chunks| <= |Split(text, ParagraphBreak)|
  {
    if text == [] then [] else Clean(Split(text, ParagraphBreak))
  }

  /** Cleaning distributes over concatenation: the chunks of two runs of
      segments are the chunks of the first run followed by those of the
      second, so the order of the text is kept. */
  lemma {:induction false} CleanAppend(a: seq<String>, b: seq<String>)
    ensures Clean(a + b) == Clean(a) + Clean(b)
  {
    if a == [] {
      assert a + b == b;
    } else {
      var ab := a + b;
      assert ab[0] == a[0];
      assert ab[1..] == a[1..] + b;
      CleanAppend(a[1..], b);
    }
  }

  /** One segment yields its strip, or nothing when it is blank. */
  lemma CleanOne(seg: String)
    ensures Clean([seg]) == if AllSpace(seg) then [] else [Strip(seg)]
  {
    assert [seg][1..] == [];
  }

  /** Every chunk is non-empty, equal to its own strip, and free of
      paragraph breaks. */
  lemma ChunksAreChunks(text: String)
    ensures forall j :: 0 <= j < |ChunkText(text)| ==> IsChunk(ChunkText(text)[j])
  {
    if text != [] {
      var segments := Split(text, ParagraphBreak);
      SplitPiecesFree(text, ParagraphBreak);
      forall j | 0 <= j < |ChunkText(text)| ensures IsChunk(ChunkText(text)[j]) {
        CleanElement(segments, j);
        var k :| 0 <= k < |segments| && Clean(segments)[j] == Strip(segments[k]);
        StripKeepsFree(segments[k], ParagraphBreak);
      }
    }
  }

  /** Stripping cannot create an occurrence of a string. */
  lemma StripKeepsFree(s: String, sub: String)
    requires !Contains(s, sub)
    ensures !Contains(Strip(s), sub)
  {
    StripIsSlice(s);
    var lead := SpanStart(s);
    if Contains(Strip(s), sub) {
      ContainsInSlice(s, lead, lead + |Strip(s)|, sub);
    }
  }

  /** The chunker returns nothing exactly when the text is all
      whitespace (the empty text included). */
  lemma ChunkTextEmptyIff(text: String)
    ensures ChunkText(text) == [] <==> AllSpace(text)
  {
    if AllSpace(text) {
      BlankTextNoChunks(text);
    } else {
      TextWithContentHasChunks(text);
    }
  }

  lemma BlankTextNoChunks(text: String)
    requires AllSpace(text)
    ensures ChunkText(text) == []
  {
    if text != [] {
      SplitAllSpace(text, ParagraphBreak);
      CleanBlank(Split(text, ParagraphBreak));
    }
  }

  lemma TextWithContentHasChunks(text: String)
    requires !AllSpace(text)
    ensures ChunkText(text) != []
  {
    var segments := Split(text, ParagraphBreak);
    SplitJoin(text, ParagraphBreak);
    assert AllSpace(ParagraphBreak) by {
      assert IsSpace('\n');
    }
    if Clean(segments) == [] {
      CleanEmptyBlank(segments);
      JoinAllSpace(segments, ParagraphBreak);
    }
  }

  /** Blank segments are all dropped. */
  lemma {:induction false} CleanBlank(segments: seq<String>)
    requires forall j :: 0 <= j < |segments| ==> AllSpace(segments[j])
    ensures Clean(segments) == []
  {
    if segments != [] {
      CleanBlank(segments[1..]);
    }
  }

  /** Nothing kept means every segment was blank. */
  lemma {:induction false} CleanEmptyBlank(segments: seq<String>)
    requires Clean(segments) == []
    ensures forall j :: 0 <= j < |segments| ==> AllSpace(segments[j])
  {
    if segments != [] {
      CleanEmptyBlank(segments[1..]);
      forall j | 0 <= j < |segments| ensures AllSpace(segments[j]) {
        if j > 0 { assert segments[j] == segments[1..][j - 1]; }
      }
    }
  }

  /** Text without a paragraph break that is not all whitespace is a
      single chunk: the stripped text. */
  lemma SingleParagraph(text: String)
    requires !Contains(text, ParagraphBreak) && !AllSpace(text)
    ensures ChunkText(text) == [Strip(text)]
  {
    FindNone(text, ParagraphBreak);
    assert Split(text, ParagraphBreak) == [text];
    CleanOne(text);
  }

  /** Chunking a chunk gives that chunk back. */
  lemma Rechunk(text: String, j: nat)
    requires j < |ChunkText(text)|
    ensures ChunkText(ChunkText(text)[j]) == [ChunkText(text)[j]]
  {
    var c := ChunkText(text)[j];
    ChunksAreChunks(text);
    assert IsChunk(c);
    assert !AllSpace(c) by { assert !IsSpace(c[0]); }
    SingleParagraph(c);
  }

  /** There are at most as many chunks as there are paragraph breaks plus
      one (`text.count("\n\n") + 1`). */
  lemma ChunkCount(text: String)
    ensures |ChunkText(text)| <= Count(text, ParagraphBreak) + 1
  {
    SplitLength(text, ParagraphBreak);
  }

  /** A single visible character is its own strip. */
  lemma StripVisible(c: char)
    requires !IsSpace(c)
    ensures Strip([c]) == [c]
  {
    assert SpanStart([c]) == 0;
    assert SpanEnd([c]) == 1;
  }

  /** Paragraphs come out in the order of the text: `"A\n\nB\n\nC"`
      gives `["A", "B", "C"]`. */
  lemma ThreeParagraphs()
    ensures ChunkText("A\n\nB\n\nC") == ["A", "B", "C"]
  {
    var segments: seq<String> := ["A", "B", "C"];
    ThreeSegments();
    StripVisible('A');
    StripVisible('B');
    StripVisible('C');
    assert segments[1..][1..] == ["C"];
    assert Clean(["C"]) == ["C"];
    assert Clean(segments[1..]) == ["B", "C"];
  }

  lemma ThreeSegments()
    ensures Split("A\n\nB\n\nC", ParagraphBreak) == ["A", "B", "C"]
  {
    var text := "A\n\nB\n\nC";
    assert OccursAt(text, ParagraphBreak, 1) by { assert text[1..3] == ParagraphBreak; }
    assert !OccursAt(text, ParagraphBreak, 0) by { assert text[0..2][0] == 'A'; }
    FindIs(text, ParagraphBreak, 1);
    var rest := text[3..];
    assert rest == "B\n\nC";
    assert OccursAt(rest, ParagraphBreak, 1) by { assert rest[1..3] == ParagraphBreak; }
    assert !OccursAt(rest, ParagraphBreak, 0) by { assert rest[0..2][0] == 'B'; }
    FindIs(rest, ParagraphBreak, 1);
    assert rest[3..] == "C";
    FindNone("C", ParagraphBreak);
    assert Split("C", ParagraphBreak) == ["C"];
    assert rest[..1] == "B";
    assert Split(rest, ParagraphBreak) == ["B", "C"];
    assert text[..1] == "A";
  }
}
