/**
 * How the two restoring scans of the unmasking phase act on pieces: a
 * character is never the start of a token, a token of the scan's kind is
 * replaced by its stored text, and the scan for swapped citations steps
 * over a placeholder without finding a citation token inside it.
 */
module RestorePieces {
  import opened Text
  import opened Masking
  import opened Unmasking
  import opened Pieces
  import opened ScanPieces

  /** A character other than `_` never starts a token. */
  lemma RestoreChar(k: Kind, store: map<string, string>, c: char, rest: string)
    requires c != '_'
    ensures RestoreScan(k, store, [c] + rest) == [c] + RestoreScan(k, store, rest)
  {
    var t := [c] + rest;
    assert t[0] == c;
    assert |Prefix(k)| <= |t| ==> t[..|Prefix(k)|][0] == c;
    assert TokenLen(k, t) == 0;
    assert t[1..] == rest;
  }

  /** A restoring scan copies a character at which no token starts. */
  lemma RestoreCopies(k: Kind, store: map<string, string>, t: string)
    requires t != [] && TokenLen(k, t) == 0
    ensures RestoreScan(k, store, t) == [t[0]] + RestoreScan(k, store, t[1..])
  {
  }

  /** A restoring scan copies characters at which no token starts. */
  lemma {:induction false} RestoreSkip(k: Kind, store: map<string, string>, u: string, rest: string)
    requires forall i :: 0 <= i < |u| ==> TokenLen(k, u[i..] + rest) == 0
    ensures RestoreScan(k, store, u + rest) == u + RestoreScan(k, store, rest)
    decreases |u|
  {
    if u == [] {
      assert u + rest == rest;
    } else {
      var t, u' := u + rest, u[1..];
      assert u[0..] == u;
      assert t[1..] == u' + rest;
      RestoreCopies(k, store, t);
      forall i | 0 <= i < |u'|
        ensures TokenLen(k, u'[i..] + rest) == 0
      {
        assert u'[i..] == u[i + 1..];
      }
      RestoreSkip(k, store, u', rest);
      ConsAssoc(u[0], u', RestoreScan(k, store, rest));
      assert [u[0]] + u' == u;
    }
  }

  lemma ConsAssoc(c: char, u: string, x: string)
    ensures [c] + (u + x) == ([c] + u) + x
  {
  }

  /** What may follow a placeholder among plain pieces: an underscore is
      always followed by another, and no `CIT_` followed by a digit. */
  predicate Lookahead(r: string) {
    && (|r| >= 2 && r[0] == '_' ==> r[1] == '_')
    && !(|r| >= 5 && r[..4] == "CIT_" && IsDigit(r[4]))
  }

  /** The characters of `__PH_n__`. */
  lemma PlaceholderChars(n: nat)
    ensures var u := Replacement(PH, n);
      && |u| >= 8 && u[0] == '_' && u[1] == '_' && u[2] == 'P' && u[3] == 'H' && u[4] == '_'
      && (forall j :: 5 <= j < |u| - 2 ==> IsDigit(u[j]))
      && u[|u| - 2] == '_' && u[|u| - 1] == '_'
  {
    var u := Replacement(PH, n);
    var d := NatToString(n);
    assert u == "__PH_" + d + "__";
    assert forall j :: 5 <= j < |u| - 2 ==> u[j] == d[j - 5];
  }

  /** The citation pattern `/__CIT_\d+__\./` finds nothing starting inside a
      placeholder, given what can follow it. */
  lemma PlaceholderInert(n: nat, rest: string, i: nat)
    requires Lookahead(rest)
    requires i < |Replacement(PH, n)|
    ensures TokenLen(CIT, Replacement(PH, n)[i..] + rest) == 0
  {
    var u := Replacement(PH, n);
    PlaceholderChars(n);
    var t := u[i..] + rest;
    assert t[0] == u[i];
    if i == 0 {
      assert t[2] == 'P';
    } else if i == 1 {
      assert t[1] == 'P';
    } else if i < 4 {
      assert t[0] != '_';
    } else if i == 4 {
      assert t[1] == u[5];
    } else if i < |u| - 2 {
      assert IsDigit(t[0]);
    } else {
      PlaceholderEnd(n, rest, i);
    }
  }

  /** The two closing underscores of a placeholder start no citation token. */
  lemma PlaceholderEnd(n: nat, rest: string, i: nat)
    requires Lookahead(rest)
    requires |Replacement(PH, n)| - 2 <= i < |Replacement(PH, n)|
    ensures TokenLen(CIT, Replacement(PH, n)[i..] + rest) == 0
  {
    var u := Replacement(PH, n);
    PlaceholderChars(n);
    var t := u[i..] + rest;
    if i == |u| - 2 {
      assert u[i..] == "__";
      if |t| >= 6 && t[..6] == "__CIT_" {
        assert t[..6][2..] == t[2..6] == rest[..4];
        assert |t| >= 7 ==> t[6] == rest[4];
      }
    } else {
      assert u[i..] == "_";
      assert |t| >= 3 && t[1] == '_' ==> t[2] == '_';
    }
  }

  /** The citation scan steps over a placeholder unchanged. */
  lemma SkipPlaceholder(store: map<string, string>, n: nat, rest: string)
    requires Lookahead(rest)
    ensures RestoreScan(CIT, store, Replacement(PH, n) + rest) == Replacement(PH, n) + RestoreScan(CIT, store, rest)
  {
    forall i | 0 <= i < |Replacement(PH, n)|
      ensures TokenLen(CIT, Replacement(PH, n)[i..] + rest) == 0
    {
      PlaceholderInert(n, rest, i);
    }
    RestoreSkip(CIT, store, Replacement(PH, n), rest);
  }

  /** The first piece of a text that does not start with `_` is that
      character. */
  lemma CharHead(ps: seq<Piece>)
    requires Plain(ps) && Render(ps) != [] && Render(ps)[0] != '_'
    ensures ps != [] && ps[0] == Char(Render(ps)[0])
    ensures Render(ps[1..]) == Render(ps)[1..]
    ensures Plain(ps[1..])
  {
    FirstChar(ps);
    TailPlain(ps);
  }

  lemma UnderscorePair(ps: seq<Piece>)
    requires Plain(ps)
    ensures |Render(ps)| >= 2 && Render(ps)[0] == '_' ==> Render(ps)[1] == '_'
  {
    if ps != [] {
      if ps[0].Token? {
        TokenChars(ps[0].kind, ps[0].n);
      }
      assert ps[0] != Char('_');
    }
  }

  lemma PlainLookahead(ps: seq<Piece>)
    requires Plain(ps)
    ensures Lookahead(Render(ps))
  {
    var r := Render(ps);
    UnderscorePair(ps);
    if |r| >= 5 && r[..4] == "CIT_" {
      assert r[0] == 'C' && r[1] == 'I' && r[2] == 'T' && r[3] == '_';
      CitFollowed(ps);
    }
  }

  /** Among plain pieces, `CIT_` is followed by a second underscore. */
  lemma CitFollowed(ps: seq<Piece>)
    requires Plain(ps)
    requires |Render(ps)| >= 5
    requires Render(ps)[0] == 'C' && Render(ps)[1] == 'I' && Render(ps)[2] == 'T' && Render(ps)[3] == '_'
    ensures Render(ps)[4] == '_'
  {
    CharHead(ps);
    var ps1 := ps[1..];
    CharHead(ps1);
    var ps2 := ps1[1..];
    CharHead(ps2);
    var ps3 := ps2[1..];
    UnderscorePair(ps3);
  }

  lemma RenderDecodeHead(ps: seq<Piece>, k: Kind, store: map<string, string>)
    requires ps != []
    ensures Render(Decode(ps, k, store)) == Render(DecodePiece(ps[0], k, store)) + Render(Decode(ps[1..], k, store))
  {
    RenderAppend(DecodePiece(ps[0], k, store), Decode(ps[1..], k, store));
  }

  /** The placeholder scan on plain pieces without swapped citations decodes
      the placeholders. */
  lemma {:induction false} RestorePH(ps: seq<Piece>, store: map<string, string>)
    requires Plain(ps) && Tokens(ps, CIT) == []
    ensures RestoreScan(PH, store, Render(ps)) == Render(Decode(ps, PH, store))
  {
    if ps != [] {
      var x, rest := ps[0], ps[1..];
      SplitHead(ps, CIT);
      TailPlain(ps);
      RestorePH(rest, store);
      RenderDecodeHead(ps, PH, store);
      if x.Char? {
        RestoreChar(PH, store, x.c, Render(rest));
        assert Render([x]) == [x.c];
      } else {
        TokenRestored(PH, store, x.n, Render(rest));
        RenderChars(Lookup(store, Key(PH, x.n), Replacement(PH, x.n)));
      }
    }
  }

  /** The swapped-citation scan on plain pieces decodes the swapped
      citations and keeps the placeholders. */
  lemma {:induction false} RestoreCIT(ps: seq<Piece>, store: map<string, string>)
    requires Plain(ps)
    ensures RestoreScan(CIT, store, Render(ps)) == Render(Decode(ps, CIT, store))
  {
    if ps != [] {
      var x, rest := ps[0], ps[1..];
      SplitHead(ps, CIT);
      TailPlain(ps);
      RestoreCIT(rest, store);
      RenderDecodeHead(ps, CIT, store);
      if x.Char? {
        RestoreChar(CIT, store, x.c, Render(rest));
        assert Render([x]) == [x.c];
      } else if x.kind == CIT {
        TokenRestored(CIT, store, x.n, Render(rest));
        RenderChars(Lookup(store, Key(CIT, x.n), Replacement(CIT, x.n)));
      } else {
        PlainLookahead(rest);
        SkipPlaceholder(store, x.n, Render(rest));
        assert Render([x]) == Replacement(PH, x.n) + [];
      }
    }
  }

  /** The whole restoring step on plain pieces whose swapped citations are
      known: both kinds decoded. */
  lemma RestoreDecodes(ps: seq<Piece>, placeholders: map<string, string>, swapped: map<string, string>)
    requires Plain(ps) && Known(ps, CIT, swapped)
    ensures Restore(placeholders, swapped, Render(ps)) == Render(Decode(Decode(ps, CIT, swapped), PH, placeholders))
  {
    var x := Decode(ps, CIT, swapped);
    RestoreCIT(ps, swapped);
    DecodePlain(ps, CIT, swapped);
    DecodeTokens(ps, CIT, swapped, CIT);
    RestorePH(x, placeholders);
  }
}
