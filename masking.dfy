/**
 * The masking phase of `splitSentences` (src/utils/sentenceSplitter.ts):
 * before the text reaches the sentence segmenter, abbreviations and
 * isolated citations are replaced by `__PH_n__` placeholders and every
 * "punctuation, optional whitespace, citation" run by `__CIT_n__.`.
 *
 * Each `String.prototype.replace` with a global regular expression and a
 * callback is one left-to-right scan: at each position the pattern is
 * tried; a match is replaced by what the callback returns and the scan
 * resumes after it, otherwise the character is kept. The callbacks change
 * state (a `Map` and a counter), so the scans are methods with loops,
 * proved equal to the function `MaskScan`.
 */
module Masking {
  import opened Text

  // ---------------------------------------------------------------------------
  // Placeholders and their maps
  // ---------------------------------------------------------------------------

  /** `__PH_n__` placeholders (`placeholders`) and `__CIT_n__` tokens
      (`swappedCitations`). */
  datatype Kind = PH | CIT

  function Prefix(k: Kind): string {
    match k
    case PH => "__PH_"
    case CIT => "__CIT_"
  }

  /** The key made from counter value `n`: `__PH_${n}__` or `__CIT_${n}__`. */
  function Key(k: Kind, n: nat): (key: string)
    ensures |key| == |Prefix(k)| + |NatToString(n)| + 2
  {
    Prefix(k) + NatToString(n) + "__"
  }

  /** What the callback puts in the text: the key itself, or for a swapped
      citation the key followed by a dot, so that the segmenter still ends
      the sentence there. */
  function Replacement(k: Kind, n: nat): string {
    match k
    case PH => Key(k, n)
    case CIT => Key(k, n) + "."
  }

  /** A `Map<string, string>` together with the counter that names its next
      key. */
  datatype Store = Store(entries: map<string, string>, next: nat)

  const EmptyStore := Store(map[], 0)

  /** `createPlaceholder` (or the swap callback): the key from the counter is
      bound to the matched text and the counter moves on. */
  function Bind(k: Kind, st: Store, original: string): (r: Store)
    ensures r.next == st.next + 1
    ensures Key(k, st.next) in r.entries && r.entries[Key(k, st.next)] == original
  {
    Store(st.entries[Key(k, st.next) := original], st.next + 1)
  }

  lemma KeyInjective(k: Kind, m: nat, n: nat)
    requires Key(k, m) == Key(k, n)
    ensures m == n
  {
    var p := |Prefix(k)|;
    assert NatToString(m) == Key(k, m)[p..p + |NatToString(m)|];
    assert NatToString(n) == Key(k, n)[p..p + |NatToString(n)|];
    NatToStringInjective(m, n);
  }

  /** A `__PH_n__` key is never a `__CIT_m__` key. */
  lemma KindsDiffer(m: nat, n: nat)
    ensures Key(PH, m) != Key(CIT, n)
  {
    assert Key(PH, m)[2] == 'P' && Key(CIT, n)[2] == 'C';
  }

  /** No key from the counter onwards has been used yet. */
  ghost predicate Fresh(k: Kind, st: Store) {
    forall n: nat :: n >= st.next ==> Key(k, n) !in st.entries
  }

  /** Binding a key keeps every earlier binding and the store fresh: this is
      why the placeholders are distinct and none is overwritten. */
  lemma BindKeeps(k: Kind, st: Store, original: string)
    requires Fresh(k, st)
    ensures Fresh(k, Bind(k, st, original))
    ensures Key(k, st.next) !in st.entries
    ensures forall key :: key in st.entries ==>
      key in Bind(k, st, original).entries && Bind(k, st, original).entries[key] == st.entries[key]
  {
    forall n: nat | n >= st.next + 1
      ensures Key(k, n) !in Bind(k, st, original).entries
    {
      if Key(k, n) == Key(k, st.next) {
        KeyInjective(k, n, st.next);
      }
    }
  }

  // ---------------------------------------------------------------------------
  // The patterns
  // ---------------------------------------------------------------------------

  datatype Pattern =
    | Abbreviation(abbr: string)   // new RegExp(`\\b${escaped}`, 'g')
    | SwappedCitation              // /([.!?])\s*(\[\d+\])/g
    | Citation                     // /\[\d+\]/g

  predicate IsSentenceEnd(c: char) {
    c == '.' || c == '!' || c == '?'
  }

  /** End of a `\[\d+\]` match that starts at `i`, or `i` when there is none. */
  function CitationEnd(t: string, i: nat): (e: nat)
    requires i <= |t|
    ensures e == i || i + 3 <= e <= |t|
  {
    if i < |t| && t[i] == '[' then
      var k := DigitsEnd(t, i + 1);
      if k > i + 1 && k < |t| && t[k] == ']' then k + 1 else i
    else i
  }

  /** Length of the match of `p` at the start of `t`, 0 when there is none.
      `prevWord` says whether the character before `t` is a word character,
      which the assertion `\b` looks at. Every pattern is deterministic (the
      greedy runs are followed by a character they cannot contain), so the
      greedy scan is the regular expression's answer. */
  function MatchLen(p: Pattern, prevWord: bool, t: string): (m: nat)
    ensures m <= |t|
  {
    match p
    case Abbreviation(a) =>
      if a != [] && |a| <= |t| && t[..|a|] == a && prevWord != IsWordChar(a[0]) then |a| else 0
    case SwappedCitation =>
      if t != [] && IsSentenceEnd(t[0]) then
        var j := SpacesEnd(t, 1);
        var e := CitationEnd(t, j);
        if e > j then e else 0
      else 0
    case Citation =>
      CitationEnd(t, 0)
  }

  // ---------------------------------------------------------------------------
  // One replace pass
  // ---------------------------------------------------------------------------

  /** `t.replace(p, callback)` where the callback binds a fresh key of kind `k`
      to the match and returns its replacement; also the store afterwards. */
  function MaskScan(k: Kind, p: Pattern, prevWord: bool, t: string, st: Store): (r: (string, Store))
    ensures r.1.next >= st.next
    decreases |t|
  {
    if t == [] then ([], st)
    else
      var m := MatchLen(p, prevWord, t);
      if m > 0 then
        var rest := MaskScan(k, p, IsWordChar(t[m - 1]), t[m..], Bind(k, st, t[..m]));
        (Replacement(k, st.next) + rest.0, rest.1)
      else
        var rest := MaskScan(k, p, IsWordChar(t[0]), t[1..], st);
        ([t[0]] + rest.0, rest.1)
  }

  /** Whether the character before position `i` is a word character. */
  function PrevWord(s: string, i: nat): bool
    requires i <= |s|
  {
    i > 0 && IsWordChar(s[i - 1])
  }

  /** A replace pass over `s`: the loop behind `String.prototype.replace`,
      with `rest` the part of `s` not yet scanned. */
  method MaskPass(k: Kind, p: Pattern, s: string, st: Store) returns (r: string, st': Store)
    ensures (r, st') == MaskScan(k, p, false, s, st)
  {
    r, st' := [], st;
    var rest, prevWord := s, false;
    PrependEmpty(MaskScan(k, p, false, s, st));
    while rest != []
      invariant MaskScan(k, p, false, s, st) == Prepend(r, MaskScan(k, p, prevWord, rest, st'))
      decreases |rest|
    {
      var m := MatchLen(p, prevWord, rest);
      if m > 0 {
        ScanMatch(k, p, prevWord, rest, st');
        PrependAssoc(r, Replacement(k, st'.next), MaskScan(k, p, IsWordChar(rest[m - 1]), rest[m..], Bind(k, st', rest[..m])));
        r := r + Replacement(k, st'.next);
        st' := Bind(k, st', rest[..m]);
        prevWord := IsWordChar(rest[m - 1]);
        rest := rest[m..];
      } else {
        PrependAssoc(r, [rest[0]], MaskScan(k, p, IsWordChar(rest[0]), rest[1..], st'));
        r := r + [rest[0]];
        prevWord := IsWordChar(rest[0]);
        rest := rest[1..];
      }
    }
    assert r + [] == r;
  }

  lemma PrependEmpty(x: (string, Store))
    ensures Prepend([], x) == x
  {
    assert [] + x.0 == x.0;
  }

  /** The output so far in front of the result of the rest of the scan. */
  function Prepend(r: string, rest: (string, Store)): (string, Store) {
    (r + rest.0, rest.1)
  }

  /** One step of the scan where the pattern matches. */
  lemma ScanMatch(k: Kind, p: Pattern, pw: bool, t: string, st: Store)
    requires t != [] && MatchLen(p, pw, t) > 0
    ensures var m := MatchLen(p, pw, t);
      MaskScan(k, p, pw, t, st) ==
      Prepend(Replacement(k, st.next), MaskScan(k, p, IsWordChar(t[m - 1]), t[m..], Bind(k, st, t[..m])))
  {
  }

  lemma PrependAssoc(a: string, b: string, rest: (string, Store))
    ensures Prepend(a, Prepend(b, rest)) == Prepend(a + b, rest)
  {
    assert a + (b + rest.0) == (a + b) + rest.0;
  }

  // ---------------------------------------------------------------------------
  // The whole masking phase
  // ---------------------------------------------------------------------------

  /** Masked in this order: "U.S." comes before "U.S.A.", so "U.S.A." never
      matches as a whole. */
  const Abbreviations: seq<string> := [
    "Mr.", "Mrs.", "Ms.", "Dr.", "Prof.", "Sr.", "Jr.", "St.", "Mt.",
    "U.S.", "U.K.", "U.N.", "E.U.", "U.S.A.", "a.m.", "p.m.", "vs.", "etc.",
    "e.g.", "i.e.", "Inc.", "Ltd.", "Co.", "Corp."
  ]

  /** The text and the placeholders after the first `j` abbreviation passes
      of the `forEach`. */
  function MaskAbbreviations(text: string, j: nat): (string, Store)
    requires j <= |Abbreviations|
  {
    if j == 0 then (text, EmptyStore)
    else
      var prev := MaskAbbreviations(text, j - 1);
      MaskScan(PH, Abbreviation(Abbreviations[j - 1]), false, prev.0, prev.1)
  }

  /** The text handed to the segmenter, with both maps. */
  datatype Masked = Masked(text: string, placeholders: Store, swapped: Store)

  function MaskText(text: string): Masked {
    var abbr := MaskAbbreviations(text, |Abbreviations|);
    var swap := MaskScan(CIT, SwappedCitation, false, abbr.0, EmptyStore);
    var cite := MaskScan(PH, Citation, false, swap.0, abbr.1);
    Masked(cite.0, cite.1, swap.1)
  }

  /** Steps 1 of `splitSentences`: the abbreviation loop, the citation swap
      and the citation mask, in that order. */
  method Mask(text: string) returns (m: Masked)
    ensures m == MaskText(text)
  {
    var processed := text;
    var placeholders := EmptyStore;
    for j := 0 to |Abbreviations|
      invariant (processed, placeholders) == MaskAbbreviations(text, j)
    {
      processed, placeholders := MaskPass(PH, Abbreviation(Abbreviations[j]), processed, placeholders);
    }
    var swapped;
    processed, swapped := MaskPass(CIT, SwappedCitation, processed, EmptyStore);
    processed, placeholders := MaskPass(PH, Citation, processed, placeholders);
    m := Masked(processed, placeholders, swapped);
  }
}
