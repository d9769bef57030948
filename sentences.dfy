/**
 * What the sentences returned by `splitSentences`
 * (src/utils/sentenceSplitter.ts) are: when the segmenter cuts the masked
 * text between tokens, each returned sentence is one restored segment with
 * its surrounding whitespace trimmed, the blank ones dropped, and the
 * restored segments join up to the original text. Trimming before and after
 * restoring agrees with trimming once after restoring because every stored
 * match, and every token, starts and ends with a non-whitespace character.
 */
module Sentences {
  import opened Text
  import opened Wrappers
  import opened Masking
  import opened Unmasking
  import opened Pieces
  import opened ScanPieces
  import opened RestorePieces
  import opened RoundTrip

  // ---------------------------------------------------------------------------
  // Stored matches are trimmed
  // ---------------------------------------------------------------------------

  /** Every text in the store starts and ends with non-whitespace. */
  predicate TrimmedStore(store: map<string, string>) {
    forall key :: key in store ==> IsTrimmed(store[key])
  }

  /** An abbreviation that starts and ends with non-whitespace. */
  predicate TrimmedPattern(p: Pattern) {
    p.Abbreviation? ==> IsTrimmed(p.abbr)
  }

  lemma CitationClose(t: string, i: nat)
    requires i <= |t| && CitationEnd(t, i) > i
    ensures t[i] == '[' && t[CitationEnd(t, i) - 1] == ']'
  {
  }

  /** A match starts and ends with non-whitespace: an abbreviation, or a run
      from a sentence end or from `[` to `]`. */
  lemma MatchTrimmed(p: Pattern, pw: bool, t: string)
    requires TrimmedPattern(p)
    ensures IsTrimmed(t[..MatchLen(p, pw, t)])
  {
    var m := MatchLen(p, pw, t);
    if m > 0 {
      match p
      case Abbreviation(a) =>
        assert t[..m] == a;
      case SwappedCitation =>
        CitationClose(t, SpacesEnd(t, 1));
      case Citation =>
        CitationClose(t, 0);
    }
  }

  /** A pass only binds trimmed matches. */
  lemma {:induction false} ScanTrimmed(k: Kind, p: Pattern, pw: bool, t: string, st: Store)
    requires TrimmedPattern(p) && TrimmedStore(st.entries)
    ensures TrimmedStore(MaskScan(k, p, pw, t, st).1.entries)
    decreases |t|
  {
    if t != [] {
      var m := MatchLen(p, pw, t);
      if m > 0 {
        MatchTrimmed(p, pw, t);
        BindTrimmed(k, st, t[..m]);
        ScanTrimmed(k, p, IsWordChar(t[m - 1]), t[m..], Bind(k, st, t[..m]));
      } else {
        ScanTrimmed(k, p, IsWordChar(t[0]), t[1..], st);
      }
    }
  }

  lemma BindTrimmed(k: Kind, st: Store, original: string)
    requires IsTrimmed(original) && TrimmedStore(st.entries)
    ensures TrimmedStore(Bind(k, st, original).entries)
  {
  }

  lemma {:induction false} AbbrevTrimmed(text: string, j: nat)
    requires j <= |Abbreviations|
    ensures TrimmedStore(MaskAbbreviations(text, j).1.entries)
  {
    if j > 0 {
      AbbrevTrimmed(text, j - 1);
      AbbrevStepTrimmed(text, j);
    }
  }

  lemma AbbrevStepTrimmed(text: string, j: nat)
    requires 0 < j <= |Abbreviations|
    requires TrimmedStore(MaskAbbreviations(text, j - 1).1.entries)
    ensures TrimmedStore(MaskAbbreviations(text, j).1.entries)
  {
    AbbreviationsTrimmed(j - 1);
    PassTrimmed(MaskAbbreviations(text, j - 1), Abbreviations[j - 1]);
  }

  lemma PassTrimmed(prev: (string, Store), a: string)
    requires IsTrimmed(a) && TrimmedStore(prev.1.entries)
    ensures TrimmedStore(MaskScan(PH, Abbreviation(a), false, prev.0, prev.1).1.entries)
  {
    ScanTrimmed(PH, Abbreviation(a), false, prev.0, prev.1);
  }

  /** Both maps of the masking phase hold trimmed texts only. */
  lemma MaskTrimmed(text: string)
    ensures TrimmedStore(MaskText(text).placeholders.entries)
    ensures TrimmedStore(MaskText(text).swapped.entries)
  {
    var abbr := MaskAbbreviations(text, |Abbreviations|);
    AbbrevTrimmed(text, |Abbreviations|);
    ScanTrimmed(CIT, SwappedCitation, false, abbr.0, EmptyStore);
    var swap := MaskScan(CIT, SwappedCitation, false, abbr.0, EmptyStore);
    ScanTrimmed(PH, Citation, false, swap.0, abbr.1);
  }

  // ---------------------------------------------------------------------------
  // Whitespace among pieces
  // ---------------------------------------------------------------------------

  /** A whitespace character; every other piece starts and ends with
      non-whitespace. */
  predicate Blank(p: Piece) {
    p.Char? && IsSpace(p.c)
  }

  predicate AllBlank(ps: seq<Piece>) {
    forall i :: 0 <= i < |ps| ==> Blank(ps[i])
  }

  predicate SolidEnds(ps: seq<Piece>) {
    ps != [] && !Blank(ps[0]) && !Blank(ps[|ps| - 1])
  }

  lemma {:induction false} CharsAt(s: string, i: nat)
    requires i < |s|
    ensures Chars(s)[i] == Char(s[i])
    decreases i
  {
    if i > 0 {
      CharsAt(s[1..], i - 1);
    }
  }

  /** A token's text starts with `_` and ends with `_` or the dot of a
      swapped citation. */
  lemma PieceTextEnds(p: Piece)
    requires !Blank(p)
    ensures PieceText(p) != [] && IsTrimmed(PieceText(p))
  {
    if p.Token? {
      var u := Replacement(p.kind, p.n);
      TokenChars(p.kind, p.n);
      if p.kind == PH {
        assert IsWordChar(u[|u| - 1]);
      } else {
        assert u[|u| - 1] == '.';
      }
    }
  }

  lemma {:induction false} BlankPieces(ps: seq<Piece>)
    requires AllBlank(ps)
    ensures AllSpace(Render(ps))
    ensures Tokens(ps, PH) == [] && Tokens(ps, CIT) == []
  {
    if ps != [] {
      BlankPieces(ps[1..]);
      assert Render(ps) == [ps[0].c] + Render(ps[1..]);
    }
  }

  lemma LastPiece(ps: seq<Piece>)
    requires ps != []
    ensures Render(ps) == Render(ps[..|ps| - 1]) + PieceText(ps[|ps| - 1])
  {
    var n := |ps| - 1;
    assert ps == ps[..n] + [ps[n]];
    RenderAppend(ps[..n], [ps[n]]);
    assert Render([ps[n]]) == PieceText(ps[n]) + [];
  }

  /** Pieces that start and end with a non-blank render as a non-empty
      trimmed text. */
  lemma RenderEnds(ps: seq<Piece>)
    requires SolidEnds(ps)
    ensures Render(ps) != [] && IsTrimmed(Render(ps))
  {
    var first, last := PieceText(ps[0]), PieceText(ps[|ps| - 1]);
    PieceTextEnds(ps[0]);
    PieceTextEnds(ps[|ps| - 1]);
    var r := Render(ps);
    assert r[0] == first[0];
    LastPiece(ps);
    assert r[|r| - 1] == last[|last| - 1];
  }

  /** A non-blank piece decodes to pieces that start and end with a
      non-blank, given trimmed stored texts. */
  lemma DecodePieceEnds(p: Piece, k: Kind, store: map<string, string>)
    requires !Blank(p) && TrimmedStore(store)
    ensures SolidEnds(DecodePiece(p, k, store))
  {
    if p.Token? && p.kind == k {
      PieceTextEnds(p);
      LookupTrimmed(store, Key(k, p.n), PieceText(p));
      CharsEnds(Lookup(store, Key(k, p.n), PieceText(p)));
    }
  }

  lemma LookupTrimmed(store: map<string, string>, key: string, matched: string)
    requires TrimmedStore(store) && matched != [] && IsTrimmed(matched)
    ensures Lookup(store, key, matched) != [] && IsTrimmed(Lookup(store, key, matched))
  {
  }

  lemma CharsEnds(v: string)
    requires v != [] && IsTrimmed(v)
    ensures SolidEnds(Chars(v))
  {
    CharsAt(v, 0);
    CharsAt(v, |v| - 1);
  }

  lemma DecodeEnds(ps: seq<Piece>, k: Kind, store: map<string, string>)
    requires SolidEnds(ps) && TrimmedStore(store)
    ensures SolidEnds(Decode(ps, k, store))
  {
    DecodePieceEnds(ps[0], k, store);
    DecodePieceEnds(ps[|ps| - 1], k, store);
    DecodeFirst(ps, k, store);
    DecodeLast(ps, k, store);
  }

  lemma DecodeFirst(ps: seq<Piece>, k: Kind, store: map<string, string>)
    requires ps != [] && DecodePiece(ps[0], k, store) != []
    ensures Decode(ps, k, store) != [] && Decode(ps, k, store)[0] == DecodePiece(ps[0], k, store)[0]
  {
  }

  lemma DecodeLast(ps: seq<Piece>, k: Kind, store: map<string, string>)
    requires ps != [] && DecodePiece(ps[|ps| - 1], k, store) != []
    ensures var d, last := Decode(ps, k, store), DecodePiece(ps[|ps| - 1], k, store);
      d != [] && d[|d| - 1] == last[|last| - 1]
  {
    var n := |ps| - 1;
    var last := DecodePiece(ps[n], k, store);
    assert ps == ps[..n] + [ps[n]];
    DecodeAppend(ps[..n], [ps[n]], k, store);
    assert Decode([ps[n]], k, store) == last + [];
  }

  /** The pieces up to the first non-blank one. */
  function LeadBlank(ps: seq<Piece>): (a: nat)
    ensures a <= |ps| && AllBlank(ps[..a])
    ensures a < |ps| ==> !Blank(ps[a])
  {
    if ps != [] && Blank(ps[0]) then
      var a := 1 + LeadBlank(ps[1..]);
      assert forall i :: 1 <= i < a ==> ps[..a][i] == ps[1..][..a - 1][i - 1];
      a
    else 0
  }

  /** The pieces after the last non-blank one start at this index. */
  function TrailBlank(ps: seq<Piece>): (b: nat)
    ensures b <= |ps| && AllBlank(ps[b..])
    ensures b > 0 ==> !Blank(ps[b - 1])
  {
    if ps != [] && Blank(ps[|ps| - 1]) then
      var init := ps[..|ps| - 1];
      var b := TrailBlank(init);
      assert forall i :: b <= i < |init| ==> ps[i] == init[i];
      b
    else |ps|
  }

  /** Pieces are leading whitespace, a middle that is empty or starts and
      ends with a non-blank, and trailing whitespace. */
  lemma SplitBlank(ps: seq<Piece>) returns (a: nat, b: nat)
    ensures a <= b <= |ps|
    ensures AllBlank(ps[..a]) && AllBlank(ps[b..])
    ensures a < b ==> SolidEnds(ps[a..b])
  {
    a := LeadBlank(ps);
    if a == |ps| {
      b := a;
    } else {
      b := TrailBlank(ps);
    }
  }

  // ---------------------------------------------------------------------------
  // One segment
  // ---------------------------------------------------------------------------

  /** A restored segment as a sentence: trimmed, and absent when blank. */
  function Sentence(s: string): (r: Option<string>)
    ensures r == None <==> IsBlank(s)
  {
    if IsBlank(s) then None else Some(Trim(s))
  }

  /** The parts of a segment split into whitespace, middle and whitespace,
      and what the restoring and trimming make of each. */
  lemma DecodeParts(A: seq<Piece>, M: seq<Piece>, B: seq<Piece>, ph: map<string, string>,
                    cit: map<string, string>)
    requires AllBlank(A) && AllBlank(B)
    ensures Render(A + M + B) == Render(A) + Render(M) + Render(B)
    ensures var D := Decode(Decode(A + M + B, CIT, cit), PH, ph);
      Render(D) == Render(A) + Render(Decode(Decode(M, CIT, cit), PH, ph)) + Render(B)
    ensures AllSpace(Render(A)) && AllSpace(Render(B))
  {
    BlankPieces(A);
    BlankPieces(B);
    RenderAppend(A + M, B);
    RenderAppend(A, M);
    DecodeAppend(A + M, B, CIT, cit);
    DecodeAppend(A, M, CIT, cit);
    DecodeNone(A, CIT, cit);
    DecodeNone(B, CIT, cit);
    var M1 := Decode(M, CIT, cit);
    DecodeAppend(A + M1, B, PH, ph);
    DecodeAppend(A, M1, PH, ph);
    DecodeNone(A, PH, ph);
    DecodeNone(B, PH, ph);
    var M2 := Decode(M1, PH, ph);
    RenderAppend(A + M2, B);
    RenderAppend(A, M2);
  }

  /** The middle of a segment, and what restoring its text gives. */
  lemma MiddleParts(M: seq<Piece>, ph: map<string, string>, cit: map<string, string>)
    requires M == [] || SolidEnds(M)
    requires TrimmedStore(ph) && TrimmedStore(cit)
    ensures IsTrimmed(Render(M)) && (Render(M) == [] <==> M == [])
    ensures var D := Render(Decode(Decode(M, CIT, cit), PH, ph));
      IsTrimmed(D) && (D == [] <==> M == [])
  {
    if M != [] {
      RenderEnds(M);
      DecodeEnds(M, CIT, cit);
      DecodeEnds(Decode(M, CIT, cit), PH, ph);
      RenderEnds(Decode(Decode(M, CIT, cit), PH, ph));
    }
  }

  /** The parts of a segment are plain and their swapped citations known. */
  lemma PartsPlain(A: seq<Piece>, M: seq<Piece>, B: seq<Piece>, cit: map<string, string>)
    requires Plain(A + M + B) && Known(A + M + B, CIT, cit)
    ensures Plain(M) && Known(M, CIT, cit)
  {
    PlainAppend(A + M, B);
    PlainAppend(A, M);
    TokensAppend(A + M, B, CIT);
    TokensAppend(A, M, CIT);
  }

  /** The unmasking callback on a segment that the segmenter cut between
      tokens: trimming, restoring and trimming again is restoring and
      trimming once, and blank segments give `null`. */
  lemma SegmentSentence(g: seq<Piece>, ph: map<string, string>, cit: map<string, string>)
    requires Plain(g) && Known(g, CIT, cit)
    requires TrimmedStore(ph) && TrimmedStore(cit)
    ensures UnmaskSegment(Render(g), ph, cit) == Sentence(Restore(ph, cit, Render(g)))
  {
    var a, b := SplitBlank(g);
    var A, M, B := g[..a], g[a..b], g[b..];
    assert g == A + M + B;
    PartsPlain(A, M, B, cit);
    DecodeParts(A, M, B, ph, cit);
    MiddleParts(M, ph, cit);
    var D := Render(Decode(Decode(M, CIT, cit), PH, ph));
    TrimPadded(Render(A), Render(M), Render(B));
    RestoreDecodes(g, ph, cit);
    RestoreDecodes(M, ph, cit);
    TrimPadded(Render(A), D, Render(B));
    TrimTrimmed(D);
  }

  // ---------------------------------------------------------------------------
  // All segments
  // ---------------------------------------------------------------------------

  /** The non-blank texts, trimmed, in order. */
  function SentencesOf(texts: seq<string>): (r: seq<string>)
    ensures |r| <= |texts|
  {
    if texts == [] then []
    else (if IsBlank(texts[0]) then [] else [Trim(texts[0])]) + SentencesOf(texts[1..])
  }

  /** Unmasking segments cut between tokens gives the restored segments that
      are not blank, trimmed, in order. */
  lemma {:induction false} UnmaskGroups(gs: seq<seq<Piece>>, ph: map<string, string>, cit: map<string, string>)
    requires Plain(Flatten(gs)) && Known(Flatten(gs), CIT, cit)
    requires TrimmedStore(ph) && TrimmedStore(cit)
    ensures Unmask(RenderEach(gs), ph, cit) == SentencesOf(RestoreEach(ph, cit, RenderEach(gs)))
  {
    if gs != [] {
      var g, rest := gs[0], Flatten(gs[1..]);
      assert Flatten(gs) == g + rest;
      PlainAppend(g, rest);
      TokensAppend(g, rest, CIT);
      assert Known(g, CIT, cit) && Known(rest, CIT, cit);
      SegmentSentence(g, ph, cit);
      UnmaskGroups(gs[1..], ph, cit);
      var ss := RenderEach(gs);
      assert ss == [Render(g)] + RenderEach(gs[1..]);
      UnmaskAppend([Render(g)], RenderEach(gs[1..]), ph, cit);
      UnmaskOne(Render(g), ph, cit);
      assert RestoreEach(ph, cit, ss)[1..] == RestoreEach(ph, cit, RenderEach(gs[1..]));
    }
  }

  /** Texts that join up to a blank text are all blank. */
  lemma {:induction false} BlankParts(texts: seq<string>)
    requires IsBlank(Flatten(texts))
    ensures SentencesOf(texts) == []
  {
    if texts != [] {
      var rest := Flatten(texts[1..]);
      assert Flatten(texts) == texts[0] + rest;
      assert forall i :: 0 <= i < |texts[0]| ==> texts[0][i] == Flatten(texts)[i];
      assert forall i :: 0 <= i < |rest| ==> rest[i] == Flatten(texts)[|texts[0]| + i];
      BlankParts(texts[1..]);
    }
  }

  /** The sentence round trip, for a text without underscores: there are
      pieces behind the masked text such that, whenever the segmenter cuts
      it between pieces, the restored segments join up to the text and the
      sentences are exactly the non-blank ones, trimmed. */
  lemma SentencesRestore(text: string) returns (ps: seq<Piece>)
    requires NoUnderscore(text)
    ensures Render(ps) == MaskText(text).text
    ensures forall gs :: Flatten(gs) == ps ==>
      var m := MaskText(text);
      var originals := RestoreEach(m.placeholders.entries, m.swapped.entries, RenderEach(gs));
      Flatten(originals) == text && Unmask(RenderEach(gs), m.placeholders.entries, m.swapped.entries) == SentencesOf(originals)
  {
    var m := MaskText(text);
    ps := MaskedPieces(text);
    MaskTrimmed(text);
    forall gs | Flatten(gs) == ps
      ensures var originals := RestoreEach(m.placeholders.entries, m.swapped.entries, RenderEach(gs));
        Flatten(originals) == text && Unmask(RenderEach(gs), m.placeholders.entries, m.swapped.entries) == SentencesOf(originals)
    {
      RestoreGroups(gs, m.placeholders.entries, m.swapped.entries);
      UnmaskGroups(gs, m.placeholders.entries, m.swapped.entries);
    }
  }
}
