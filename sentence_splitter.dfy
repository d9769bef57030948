/**
 * `splitSentences` (src/utils/sentenceSplitter.ts): mask, segment, unmask.
 * The sentence segmenter (`Intl.Segmenter` with sentence granularity) is
 * not part of this model; it is a parameter that maps the masked text to
 * its segments.
 */
module SentenceSplitter {
  import opened Text
  import opened Masking
  import opened Unmasking
  import opened Pieces
  import opened ScanPieces
  import opened RestorePieces
  import opened RoundTrip
  import opened Sentences

  /** The sentences of `text`: none for a blank text, otherwise the masked
      text's segments unmasked. Every sentence is non-empty and trimmed. */
  function Split(text: string, segmenter: string -> seq<string>): (r: seq<string>)
    ensures IsBlank(text) ==> r == []
    ensures forall i :: 0 <= i < |r| ==> r[i] != [] && IsTrimmed(r[i])
  {
    if IsBlank(text) then []
    else
      var m := MaskText(text);
      Unmask(segmenter(m.text), m.placeholders.entries, m.swapped.entries)
  }

  method SplitSentences(text: string, segmenter: string -> seq<string>) returns (sentences: seq<string>)
    ensures sentences == Split(text, segmenter)
  {
    if IsBlank(text) {
      return [];
    }
    var m := Mask(text);
    var segments := segmenter(m.text);
    sentences := Unmask(segments, m.placeholders.entries, m.swapped.entries);
  }

  /** For a text without underscores, whenever the segmenter cuts the masked
      text between tokens, the sentences are the restored segments that are
      not blank, trimmed, and the restored segments join up to the text. */
  lemma SplitRoundTrip(text: string, segmenter: string -> seq<string>) returns (ps: seq<Piece>)
    requires NoUnderscore(text)
    ensures Render(ps) == MaskText(text).text
    ensures forall gs :: Flatten(gs) == ps && segmenter(Render(ps)) == RenderEach(gs) ==>
      var m := MaskText(text);
      var originals := RestoreEach(m.placeholders.entries, m.swapped.entries, RenderEach(gs));
      Flatten(originals) == text && Split(text, segmenter) == SentencesOf(originals)
  {
    ps := SentencesRestore(text);
    var m := MaskText(text);
    forall gs | Flatten(gs) == ps && segmenter(Render(ps)) == RenderEach(gs)
      ensures var originals := RestoreEach(m.placeholders.entries, m.swapped.entries, RenderEach(gs));
        Flatten(originals) == text && Split(text, segmenter) == SentencesOf(originals)
    {
      var originals := RestoreEach(m.placeholders.entries, m.swapped.entries, RenderEach(gs));
      if IsBlank(text) {
        BlankParts(originals);
      }
    }
  }

  /** With a segmenter that finds no sentence boundary, a non-blank text
      without underscores comes back whole, trimmed. */
  lemma SplitWhole(text: string)
    requires NoUnderscore(text) && !IsBlank(text)
    ensures Split(text, s => [s]) == [Trim(text)]
  {
    var m := MaskText(text);
    WholeSegment(text, m.placeholders.entries, m.swapped.entries);
  }

  lemma WholeSegment(text: string, ph: map<string, string>, cit: map<string, string>)
    requires NoUnderscore(text)
    requires ph == MaskText(text).placeholders.entries && cit == MaskText(text).swapped.entries
    ensures Unmask([MaskText(text).text], ph, cit) == SentencesOf([text])
  {
    var ps := MaskedPieces(text);
    MaskTrimmed(text);
    MaskRestore(text);
    OneGroup(ps, ph, cit);
    assert Restore(ph, cit, Render(ps)) == text;
  }

  lemma OneGroup(ps: seq<Piece>, ph: map<string, string>, cit: map<string, string>)
    requires Plain(ps) && Known(ps, CIT, cit)
    requires TrimmedStore(ph) && TrimmedStore(cit)
    ensures Unmask([Render(ps)], ph, cit) == SentencesOf([Restore(ph, cit, Render(ps))])
  {
    var gs := [ps];
    assert gs[1..] == [] && ps + [] == ps;
    assert Flatten(gs) == ps;
    assert RenderEach(gs) == [Render(ps)];
    UnmaskGroups(gs, ph, cit);
    assert RestoreEach(ph, cit, [Render(ps)]) == [Restore(ph, cit, Render(ps))] + [];
  }
}
