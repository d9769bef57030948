/**
 * The round trip of `splitSentences` (src/utils/sentenceSplitter.ts): for a
 * text without underscores, restoring the masked text gives the text back,
 * and so does restoring the segments one by one and joining them, as long
 * as no segment boundary falls inside a token.
 */
module RoundTrip {
  import opened Text
  import opened Masking
  import opened Unmasking
  import opened Pieces
  import opened ScanPieces
  import opened RestorePieces

  /** Every abbreviation of the list starts with a letter and has no
      underscore. */
  lemma AbbreviationsOk(i: nat)
    requires i < |Abbreviations|
    ensures PatternOk(Abbreviation(Abbreviations[i]))
  {
    var a := Abbreviations[i];
    assert a != [] && IsAsciiLetter(a[0]);
    assert NoUnderscore(a);
  }

  /** Every abbreviation of the list ends with a dot. */
  lemma AbbreviationsTrimmed(i: nat)
    requires i < |Abbreviations|
    ensures IsTrimmed(Abbreviations[i])
  {
    var a := Abbreviations[i];
    assert a != [] && !IsSpace(a[0]) && a[|a| - 1] == '.';
  }

  /** The text after the first `j` abbreviation passes, as pieces: only
      placeholders, all below the counter, decoding to the text. */
  lemma {:induction false} AbbrevPieces(text: string, j: nat) returns (ps: seq<Piece>)
    requires NoUnderscore(text) && j <= |Abbreviations|
    ensures var r := MaskAbbreviations(text, j);
      && Render(ps) == r.0 && Plain(ps) && Tokens(ps, CIT) == []
      && Below(ps, PH, r.1.next) && Decode(ps, PH, r.1.entries) == Chars(text)
  {
    if j == 0 {
      ps := Chars(text);
      RenderChars(text);
      PlainChars(text);
      TokensChars(text, CIT);
      TokensChars(text, PH);
      DecodeNone(ps, PH, map[]);
    } else {
      var prev := AbbrevPieces(text, j - 1);
      var r := MaskAbbreviations(text, j - 1);
      AbbreviationsOk(j - 1);
      ps := MaskPieces(PH, Abbreviation(Abbreviations[j - 1]), false, prev, r.1);
    }
  }

  /** The masked text as pieces, with what the restoring step needs of them;
      decoding both kinds gives back the text. */
  lemma MaskedPieces(text: string) returns (ps: seq<Piece>)
    requires NoUnderscore(text)
    ensures var m := MaskText(text);
      && Render(ps) == m.text && Plain(ps) && Known(ps, CIT, m.swapped.entries)
      && Render(Decode(Decode(ps, CIT, m.swapped.entries), PH, m.placeholders.entries)) == text
  {
    var abbr := MaskAbbreviations(text, |Abbreviations|);
    var ps1 := AbbrevPieces(text, |Abbreviations|);
    var swap := MaskScan(CIT, SwappedCitation, false, abbr.0, EmptyStore);
    var ps2 := MaskPieces(CIT, SwappedCitation, false, ps1, EmptyStore);
    DecodeNone(ps1, CIT, map[]);
    var cite := MaskScan(PH, Citation, false, swap.0, abbr.1);
    var ps3 := MaskPieces(PH, Citation, false, ps2, abbr.1);
    ps := ps3;
    var ph, cit := cite.1.entries, swap.1.entries;
    DecodeCommute(ps3, ph, cit);
    DecodeCommute(ps2, abbr.1.entries, cit);
    RenderChars(text);
  }

  /** The whole-text round trip: restoring the masked text with both maps
      gives back a text that has no underscore. */
  lemma MaskRestore(text: string)
    requires NoUnderscore(text)
    ensures var m := MaskText(text);
      Restore(m.placeholders.entries, m.swapped.entries, m.text) == text
  {
    var m := MaskText(text);
    var ps := MaskedPieces(text);
    RestoreDecodes(ps, m.placeholders.entries, m.swapped.entries);
  }

  // ---------------------------------------------------------------------------
  // Segments
  // ---------------------------------------------------------------------------

  function Flatten<T>(xss: seq<seq<T>>): seq<T> {
    if xss == [] then [] else xss[0] + Flatten(xss[1..])
  }

  /** The texts of groups of pieces: segments whose boundaries fall between
      pieces. */
  function RenderEach(gs: seq<seq<Piece>>): (ss: seq<string>)
    ensures |ss| == |gs|
  {
    if gs == [] then [] else [Render(gs[0])] + RenderEach(gs[1..])
  }

  function RestoreEach(placeholders: map<string, string>, swapped: map<string, string>, ss: seq<string>)
    : (rs: seq<string>)
    ensures |rs| == |ss|
  {
    if ss == [] then [] else [Restore(placeholders, swapped, ss[0])] + RestoreEach(placeholders, swapped, ss[1..])
  }

  /** Restoring each group and joining gives the pieces decoded. */
  lemma {:induction false} RestoreGroups(gs: seq<seq<Piece>>, placeholders: map<string, string>,
                                         swapped: map<string, string>)
    requires Plain(Flatten(gs)) && Known(Flatten(gs), CIT, swapped)
    ensures Flatten(RestoreEach(placeholders, swapped, RenderEach(gs))) ==
            Render(Decode(Decode(Flatten(gs), CIT, swapped), PH, placeholders))
  {
    if gs != [] {
      var g, rest := gs[0], Flatten(gs[1..]);
      assert Flatten(gs) == g + rest;
      PlainAppend(g, rest);
      TokensAppend(g, rest, CIT);
      assert Known(g, CIT, swapped) && Known(rest, CIT, swapped);
      RestoreDecodes(g, placeholders, swapped);
      RestoreGroups(gs[1..], placeholders, swapped);
      assert RenderEach(gs)[1..] == RenderEach(gs[1..]);
      DecodeAppend(g, rest, CIT, swapped);
      DecodeAppend(Decode(g, CIT, swapped), Decode(rest, CIT, swapped), PH, placeholders);
      RenderAppend(Decode(Decode(g, CIT, swapped), PH, placeholders), Decode(Decode(rest, CIT, swapped), PH, placeholders));
    }
  }

  /** Segment round trip: when the segments of the masked text split it
      between tokens, never inside one, restoring every segment and joining
      the results gives back a text without underscores. */
  lemma SegmentsRestore(text: string) returns (ps: seq<Piece>)
    requires NoUnderscore(text)
    ensures Render(ps) == MaskText(text).text
    ensures forall gs :: Flatten(gs) == ps ==>
      Flatten(RestoreEach(MaskText(text).placeholders.entries, MaskText(text).swapped.entries, RenderEach(gs))) == text
  {
    var m := MaskText(text);
    ps := MaskedPieces(text);
    forall gs | Flatten(gs) == ps
      ensures Flatten(RestoreEach(m.placeholders.entries, m.swapped.entries, RenderEach(gs))) == text
    {
      RestoreGroups(gs, m.placeholders.entries, m.swapped.entries);
    }
  }
}
