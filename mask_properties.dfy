/**
 * Properties of the masking passes of `splitSentences`
 * (src/utils/sentenceSplitter.ts) on their own: the counters only grow, so
 * no key is bound twice and earlier bindings stay; each match is stored
 * under its own key and the restoring scan turns its token back into
 * exactly the match; after the citation mask no `[digits]` is left.
 */
module MaskProperties {
  import opened Text
  import opened Masking
  import opened Unmasking
  import opened ScanPieces

  /** A pass keeps every earlier binding and leaves the store fresh, so it
      never overwrites a key. */
  lemma {:induction false} ScanFresh(k: Kind, p: Pattern, pw: bool, t: string, st: Store)
    requires Fresh(k, st)
    ensures Fresh(k, MaskScan(k, p, pw, t, st).1)
    ensures var r := MaskScan(k, p, pw, t, st).1;
      forall key :: key in st.entries ==> key in r.entries && r.entries[key] == st.entries[key]
    decreases |t|
  {
    if t != [] {
      var m := MatchLen(p, pw, t);
      if m > 0 {
        BindKeeps(k, st, t[..m]);
        ScanFresh(k, p, IsWordChar(t[m - 1]), t[m..], Bind(k, st, t[..m]));
      } else {
        ScanFresh(k, p, IsWordChar(t[0]), t[1..], st);
      }
    }
  }

  lemma {:induction false} AbbrevFresh(text: string, j: nat)
    requires j <= |Abbreviations|
    ensures Fresh(PH, MaskAbbreviations(text, j).1)
  {
    if j > 0 {
      AbbrevFresh(text, j - 1);
      PassFresh(MaskAbbreviations(text, j - 1), Abbreviations[j - 1]);
    }
  }

  lemma PassFresh(prev: (string, Store), a: string)
    requires Fresh(PH, prev.1)
    ensures Fresh(PH, MaskScan(PH, Abbreviation(a), false, prev.0, prev.1).1)
  {
    ScanFresh(PH, Abbreviation(a), false, prev.0, prev.1);
  }

  /** Both maps end fresh, and the citation mask keeps every abbreviation's
      placeholder. */
  lemma MaskFresh(text: string)
    ensures Fresh(PH, MaskText(text).placeholders) && Fresh(CIT, MaskText(text).swapped)
    ensures var abbr := MaskAbbreviations(text, |Abbreviations|).1.entries;
      forall key :: key in abbr ==>
        (key in MaskText(text).placeholders.entries && MaskText(text).placeholders.entries[key] == abbr[key])
  {
    var abbr := MaskAbbreviations(text, |Abbreviations|);
    AbbrevFresh(text, |Abbreviations|);
    ScanFresh(CIT, SwappedCitation, false, abbr.0, EmptyStore);
    var swap := MaskScan(CIT, SwappedCitation, false, abbr.0, EmptyStore);
    ScanFresh(PH, Citation, false, swap.0, abbr.1);
  }

  /** A match at the start of the scan becomes the token of the current
      counter, and restoring that token with the final map gives back exactly
      the match (the key is never rebound later in the pass). */
  lemma MatchRestored(k: Kind, p: Pattern, pw: bool, t: string, st: Store)
    requires MatchLen(p, pw, t) > 0
    ensures var r := MaskScan(k, p, pw, t, st);
      && Replacement(k, st.next) <= r.0
      && RestoreScan(k, r.1.entries, Replacement(k, st.next)) == t[..MatchLen(p, pw, t)]
  {
    var m := MatchLen(p, pw, t);
    ScanMatch(k, p, pw, t, st);
    var st1 := Bind(k, st, t[..m]);
    ScanKeeps(k, p, IsWordChar(t[m - 1]), t[m..], st1, st.next);
    var r := MaskScan(k, p, pw, t, st);
    KnownTokenRestored(k, r.1.entries, st.next);
  }

  // ---------------------------------------------------------------------------
  // No citation is left
  // ---------------------------------------------------------------------------

  /** No `\[\d+\]` starts anywhere in `s`. */
  predicate CitationFree(s: string) {
    forall i :: 0 <= i <= |s| ==> CitationEnd(s[i..], 0) == 0
  }

  lemma CitationFreeCons(u: string, s: string)
    requires CitationFree(s)
    requires forall j :: 0 <= j < |u| ==> CitationEnd(u[j..] + s, 0) == 0
    ensures CitationFree(u + s)
  {
    forall i | 0 <= i <= |u + s|
      ensures CitationEnd((u + s)[i..], 0) == 0
    {
      if i < |u| {
        assert (u + s)[i..] == u[i..] + s;
      } else {
        assert (u + s)[i..] == s[i - |u|..];
      }
    }
  }

  /** The citation mask's output starts with the first character, or with
      the `_` of a placeholder. */
  lemma ScanHead(pw: bool, t: string, st: Store)
    requires t != []
    ensures var out := MaskScan(PH, Citation, pw, t, st).0;
      out != [] && (out[0] == '_' || out[0] == t[0])
  {
    var m := MatchLen(Citation, pw, t);
    if m > 0 {
      TokenChars(PH, st.next);
    }
  }

  /** The citation mask copies a leading run of digits; what it puts after
      them starts with the next character or with `_`. */
  lemma DigitsCopied(pw: bool, rest: string, st: Store) returns (tail: string)
    ensures var d := DigitsEnd(rest, 0);
      && MaskScan(PH, Citation, pw, rest, st).0 == rest[..d] + tail
      && (d == |rest| <==> tail == [])
      && (d < |rest| ==> tail[0] == '_' || tail[0] == rest[d])
  {
    var d := DigitsEnd(rest, 0);
    var digits, after := rest[..d], rest[d..];
    assert rest == digits + after;
    forall i | 0 <= i < |digits|
      ensures MatchLen(Citation, PrevAt(pw, digits, i), digits[i..] + after) == 0
    {
      assert (digits[i..] + after)[0] == rest[i];
    }
    SkipChars(PH, Citation, pw, digits, after, st);
    var pw' := PrevAt(pw, digits, |digits|);
    tail := MaskScan(PH, Citation, pw', after, st).0;
    if after != [] {
      ScanHead(pw', after, st);
    }
  }

  /** A `[` the citation mask keeps does not start a citation afterwards:
      the digits after it are copied, and what follows them is neither
      a digit nor `]`. */
  lemma BracketKept(pw: bool, rest: string, st: Store)
    requires CitationEnd(['['] + rest, 0) == 0
    ensures CitationEnd(['['] + MaskScan(PH, Citation, pw, rest, st).0, 0) == 0
  {
    var d := DigitsEnd(rest, 0);
    var digits := rest[..d];
    var tail := DigitsCopied(pw, rest, st);
    var s, s0 := ['['] + (digits + tail), ['['] + rest;
    assert rest == digits + rest[d..];
    AfterBracket(digits, tail);
    AfterBracket(digits, rest[d..]);
    DigitsEndAfter(s, 1, digits);
    DigitsEndAfter(s0, 1, digits);
  }

  lemma AfterBracket(x: string, y: string)
    ensures var s := ['['] + (x + y);
      && s[1..1 + |x|] == x
      && (y != [] ==> s[1 + |x|] == y[0])
  {
  }

  /** After the citation mask, the text holds no `[digits]`. */
  lemma {:induction false} CitationMasked(pw: bool, t: string, st: Store)
    ensures CitationFree(MaskScan(PH, Citation, pw, t, st).0)
    decreases |t|
  {
    if t == [] {
      assert MaskScan(PH, Citation, pw, t, st).0[0..] == [];
    } else {
      var m := MatchLen(Citation, pw, t);
      if m > 0 {
        var u := Replacement(PH, st.next);
        var out' := MaskScan(PH, Citation, IsWordChar(t[m - 1]), t[m..], Bind(PH, st, t[..m])).0;
        CitationMasked(IsWordChar(t[m - 1]), t[m..], Bind(PH, st, t[..m]));
        TokenChars(PH, st.next);
        forall j | 0 <= j < |u|
          ensures CitationEnd(u[j..] + out', 0) == 0
        {
          assert (u[j..] + out')[0] == u[j];
        }
        CitationFreeCons(u, out');
      } else {
        var out' := MaskScan(PH, Citation, IsWordChar(t[0]), t[1..], st).0;
        CitationMasked(IsWordChar(t[0]), t[1..], st);
        if t[0] == '[' {
          assert t == ['['] + t[1..];
          BracketKept(IsWordChar(t[0]), t[1..], st);
        }
        assert [t[0]][0..] + out' == [t[0]] + out';
        CitationFreeCons([t[0]], out');
      }
    }
  }

  /** The text handed to the segmenter holds no `[digits]`. */
  lemma MaskedCitationFree(text: string)
    ensures CitationFree(MaskText(text).text)
  {
    var abbr := MaskAbbreviations(text, |Abbreviations|);
    var swap := MaskScan(CIT, SwappedCitation, false, abbr.0, EmptyStore);
    CitationMasked(false, swap.0, abbr.1);
  }
}
