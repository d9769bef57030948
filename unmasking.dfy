/**
 * The unmasking phase of `splitSentences` (src/utils/sentenceSplitter.ts):
 * every segment is trimmed, dropped when blank, has its swapped citations
 * and then its placeholders put back, and is trimmed again; the empty
 * results are filtered out. These steps only compute values, so they are
 * functions.
 */
module Unmasking {
  import opened Text
  import opened Wrappers
  import opened Masking

  function Suffix(k: Kind): string {
    match k
    case PH => "__"
    case CIT => "__."
  }

  /** Length of the match of `/__PH_\d+__/` or `/__CIT_\d+__\./` at the start
      of `t`, 0 when there is none. */
  function TokenLen(k: Kind, t: string): (m: nat)
    ensures m <= |t|
    ensures m > 0 ==> m >= |Prefix(k)| + 1 + |Suffix(k)|
  {
    var pre := Prefix(k);
    if |pre| <= |t| && t[..|pre|] == pre then
      var j := DigitsEnd(t, |pre|);
      var suf := Suffix(k);
      if j > |pre| && j + |suf| <= |t| && t[j..j + |suf|] == suf then j + |suf| else 0
    else 0
  }

  /** `map.get(key) || match`: the stored text, unless the key is unknown or
      bound to the empty string. */
  function Lookup(store: map<string, string>, key: string, matched: string): string {
    if key in store && store[key] != [] then store[key] else matched
  }

  /** The key a match stands for: a swapped citation's match is its key
      followed by the dot (`match.slice(0, -1)`). */
  function TokenKey(k: Kind, matched: string): string
    requires matched != []
  {
    match k
    case PH => matched
    case CIT => matched[..|matched| - 1]
  }

  /** `t.replace(pattern, match => store.get(key) || match)` for the tokens of
      kind `k`. */
  function RestoreScan(k: Kind, store: map<string, string>, t: string): string
    decreases |t|
  {
    if t == [] then []
    else
      var m := TokenLen(k, t);
      if m > 0 then Lookup(store, TokenKey(k, t[..m]), t[..m]) + RestoreScan(k, store, t[m..])
      else [t[0]] + RestoreScan(k, store, t[1..])
  }

  /** Swapped citations first, then the placeholders. */
  function Restore(placeholders: map<string, string>, swapped: map<string, string>, sentence: string): string {
    RestoreScan(PH, placeholders, RestoreScan(CIT, swapped, sentence))
  }

  /** The callback of `segments.map`: `null` for a blank segment, otherwise
      the restored sentence, trimmed. */
  function UnmaskSegment(segment: string, placeholders: map<string, string>, swapped: map<string, string>)
    : (r: Option<string>)
    ensures r == None <==> IsBlank(segment)
    ensures r.Some? ==> IsTrimmed(r.value)
  {
    var sentence := Trim(segment);
    if sentence == [] then None else Some(Trim(Restore(placeholders, swapped, sentence)))
  }

  /** `segments.map(...).filter(s => s !== null && s.length > 0)`. */
  function Unmask(segments: seq<string>, placeholders: map<string, string>, swapped: map<string, string>)
    : (r: seq<string>)
    ensures |r| <= |segments|
    ensures forall i :: 0 <= i < |r| ==> r[i] != [] && IsTrimmed(r[i])
  {
    MapTrimmed(segments, placeholders, swapped);
    Keep(MapSegments(segments, placeholders, swapped))
  }

  /** `segments.map(...)` with the callback `UnmaskSegment`. */
  function MapSegments(segments: seq<string>, placeholders: map<string, string>, swapped: map<string, string>)
    : (us: seq<Option<string>>)
    ensures |us| == |segments|
  {
    if segments == [] then []
    else [UnmaskSegment(segments[0], placeholders, swapped)] + MapSegments(segments[1..], placeholders, swapped)
  }

  lemma {:induction false} MapSegmentsAt(segments: seq<string>, placeholders: map<string, string>,
                                         swapped: map<string, string>, i: nat)
    requires i < |segments|
    ensures MapSegments(segments, placeholders, swapped)[i] == UnmaskSegment(segments[i], placeholders, swapped)
    decreases i
  {
    if i > 0 {
      MapSegmentsAt(segments[1..], placeholders, swapped, i - 1);
    }
  }

  lemma MapTrimmed(segments: seq<string>, placeholders: map<string, string>, swapped: map<string, string>)
    ensures TrimmedResults(MapSegments(segments, placeholders, swapped))
  {
    var us := MapSegments(segments, placeholders, swapped);
    forall i | 0 <= i < |us| && us[i].Some?
      ensures IsTrimmed(us[i].value)
    {
      MapSegmentsAt(segments, placeholders, swapped, i);
    }
  }

  /** Every non-empty result, in order. */
  predicate TrimmedResults(us: seq<Option<string>>) {
    forall i :: 0 <= i < |us| && us[i].Some? ==> IsTrimmed(us[i].value)
  }

  /** The filter: the non-null, non-empty results, in order. */
  function Keep(us: seq<Option<string>>): (r: seq<string>)
    ensures |r| <= |us|
    ensures TrimmedResults(us) ==> forall i :: 0 <= i < |r| ==> r[i] != [] && IsTrimmed(r[i])
  {
    if us == [] then []
    else
      var head := if us[0].Some? && us[0].value != [] then [us[0].value] else [];
      var tail := Keep(us[1..]);
      assert TrimmedResults(us) ==> TrimmedResults(us[1..]) by {
        if TrimmedResults(us) {
          forall i | 0 <= i < |us[1..]| && us[1..][i].Some?
            ensures IsTrimmed(us[1..][i].value)
          {
            assert us[1..][i] == us[i + 1];
          }
        }
      }
      assert forall i :: 0 <= i < |head + tail| ==> (head + tail)[i] == if i < |head| then head[i] else tail[i - |head|];
      head + tail
  }

  // ---------------------------------------------------------------------------
  // Properties
  // ---------------------------------------------------------------------------

  /** A token is matched exactly, whatever follows it. */
  lemma TokenMatches(k: Kind, n: nat, rest: string)
    ensures TokenLen(k, Replacement(k, n) + rest) == |Replacement(k, n)|
    ensures (Replacement(k, n) + rest)[..|Replacement(k, n)|] == Replacement(k, n)
  {
    var pre, d, suf := Prefix(k), NatToString(n), Suffix(k);
    assert Replacement(k, n) == pre + d + suf;
    TokenShape(pre, d, suf, rest);
  }

  /** The text of a token: a prefix, digits, then a suffix that starts with
      `_`, so the digit run ends exactly before the suffix. */
  lemma TokenShape(pre: string, d: string, suf: string, rest: string)
    requires AllDigits(d) && suf != [] && suf[0] == '_'
    ensures var t := pre + d + suf + rest;
      && t[..|pre|] == pre
      && DigitsEnd(t, |pre|) == |pre| + |d|
      && t[|pre| + |d|..|pre| + |d| + |suf|] == suf
      && t[..|pre + d + suf|] == pre + d + suf
  {
    var t := pre + d + suf + rest;
    assert t == pre + (d + (suf + rest));
    assert t[|pre|..|pre| + |d|] == d;
    assert t[|pre| + |d|] == '_';
    DigitsEndAfter(t, |pre|, d);
  }

  /** A token is replaced by its stored text, or left as it is when no text
      is stored for it; what follows is restored on its own. */
  lemma TokenRestored(k: Kind, store: map<string, string>, n: nat, rest: string)
    ensures RestoreScan(k, store, Replacement(k, n) + rest) ==
            Lookup(store, Key(k, n), Replacement(k, n)) + RestoreScan(k, store, rest)
  {
    var t := Replacement(k, n) + rest;
    TokenMatches(k, n, rest);
    assert t[|Replacement(k, n)|..] == rest;
    if k == CIT {
      assert Replacement(k, n)[..|Replacement(k, n)| - 1] == Key(k, n);
    }
  }

  /** The `|| match` fallback: a token without a stored text stays as it is. */
  lemma UnknownTokenKept(k: Kind, store: map<string, string>, n: nat)
    requires Key(k, n) !in store
    ensures RestoreScan(k, store, Replacement(k, n)) == Replacement(k, n)
  {
    TokenRestored(k, store, n, []);
    assert Replacement(k, n) + [] == Replacement(k, n);
  }

  /** A token whose text is stored is replaced by exactly that text. */
  lemma KnownTokenRestored(k: Kind, store: map<string, string>, n: nat)
    requires Key(k, n) in store && store[Key(k, n)] != []
    ensures RestoreScan(k, store, Replacement(k, n)) == store[Key(k, n)]
  {
    TokenRestored(k, store, n, []);
    assert Replacement(k, n) + [] == Replacement(k, n);
    assert store[Key(k, n)] + [] == store[Key(k, n)];
  }

  /** Unmasking keeps the segments' order: it maps and filters each segment
      on its own. */
  lemma UnmaskAppend(a: seq<string>, b: seq<string>, placeholders: map<string, string>,
                     swapped: map<string, string>)
    ensures Unmask(a + b, placeholders, swapped) == Unmask(a, placeholders, swapped) + Unmask(b, placeholders, swapped)
  {
    MapAppend(a, b, placeholders, swapped);
    KeepAppend(MapSegments(a, placeholders, swapped), MapSegments(b, placeholders, swapped));
  }

  lemma {:induction false} MapAppend(a: seq<string>, b: seq<string>, placeholders: map<string, string>,
                                     swapped: map<string, string>)
    ensures MapSegments(a + b, placeholders, swapped) == MapSegments(a, placeholders, swapped) + MapSegments(b, placeholders, swapped)
    decreases |a|
  {
    if a == [] {
      assert a + b == b;
    } else {
      assert (a + b)[0] == a[0];
      assert (a + b)[1..] == a[1..] + b;
      MapAppend(a[1..], b, placeholders, swapped);
    }
  }

  lemma {:induction false} KeepAppend(a: seq<Option<string>>, b: seq<Option<string>>)
    ensures Keep(a + b) == Keep(a) + Keep(b)
    decreases |a|
  {
    if a == [] {
      assert a + b == b;
    } else {
      assert (a + b)[1..] == a[1..] + b;
      KeepAppend(a[1..], b);
    }
  }

  /** Every sentence returned is the unmasking of one of the segments. */
  lemma UnmaskFrom(segments: seq<string>, placeholders: map<string, string>,
                   swapped: map<string, string>, i: nat)
    requires i < |Unmask(segments, placeholders, swapped)|
    ensures exists j :: (0 <= j < |segments| &&
      UnmaskSegment(segments[j], placeholders, swapped) == Some(Unmask(segments, placeholders, swapped)[i]))
  {
    var j := KeepFrom(MapSegments(segments, placeholders, swapped), i);
    MapSegmentsAt(segments, placeholders, swapped, j);
  }

  lemma {:induction false} KeepFrom(us: seq<Option<string>>, i: nat) returns (j: nat)
    requires i < |Keep(us)|
    ensures j < |us| && us[j] == Some(Keep(us)[i])
    decreases |us|
  {
    var head := if us[0].Some? && us[0].value != [] then [us[0].value] else [];
    if i < |head| {
      j := 0;
    } else {
      var j' := KeepFrom(us[1..], i - |head|);
      j := j' + 1;
    }
  }

  /** A segment is kept exactly when its unmasking is non-empty. */
  lemma UnmaskOne(segment: string, placeholders: map<string, string>, swapped: map<string, string>)
    ensures Unmask([segment], placeholders, swapped) ==
      match UnmaskSegment(segment, placeholders, swapped)
      case None => []
      case Some(s) => if s == [] then [] else [s]
  {
    assert [segment][1..] == [];
  }
}
