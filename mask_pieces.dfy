/**
 * How a masking pass acts on pieces: it never matches inside a token, so it
 * keeps the tokens already present and turns some runs of characters into
 * new tokens whose stored text is exactly the run they replaced.
 */
module ScanPieces {
  import opened Text
  import opened Masking
  import opened Unmasking
  import opened Pieces

  /** The side of `\b` before position `i` of `u`, when `pw` is the side
      before `u`. */
  function PrevAt(pw: bool, u: string, i: nat): bool
    requires i <= |u|
  {
    if i == 0 then pw else IsWordChar(u[i - 1])
  }

  /** The shape of a token: two underscores, then word characters up to the
      end of the key, then the dot of a swapped citation. */
  lemma TokenChars(k: Kind, n: nat)
    ensures |Key(k, n)| >= 8
    ensures Replacement(k, n)[0] == '_' && Replacement(k, n)[1] == '_'
    ensures forall i :: 0 <= i < |Key(k, n)| ==> IsWordChar(Replacement(k, n)[i])
    ensures k == PH ==> Replacement(k, n) == Key(k, n)
    ensures k == CIT ==> Replacement(k, n) == Key(k, n) + "."
  {
    var pre, d := Prefix(k), NatToString(n);
    var key := Key(k, n);
    assert key == pre + d + "__";
    forall i | 0 <= i < |key|
      ensures IsWordChar(key[i])
    {
      if i < |pre| {
        assert key[i] == pre[i];
      } else if i < |pre| + |d| {
        assert key[i] == d[i - |pre|];
      } else {
        assert key[i] == '_';
      }
    }
    assert Replacement(k, n)[..|key|] == key;
  }

  /** The patterns the round trip works with: an abbreviation starts with a
      letter and holds no underscore. */
  predicate PatternOk(p: Pattern) {
    p.Abbreviation? ==> NoUnderscore(p.abbr) && (p.abbr != [] ==> IsAsciiLetter(p.abbr[0]))
  }

  /** Pattern `p` cannot match starting inside a token of kind `k`: the
      swap pattern would match at the dot that ends a swapped citation. */
  predicate InertOn(p: Pattern, k: Kind) {
    PatternOk(p) && (p == SwappedCitation ==> k == PH)
  }

  lemma TokenInert(p: Pattern, pw: bool, k: Kind, n: nat, rest: string, i: nat)
    requires InertOn(p, k)
    requires i < |Replacement(k, n)|
    ensures MatchLen(p, PrevAt(pw, Replacement(k, n), i), Replacement(k, n)[i..] + rest) == 0
  {
    var u := Replacement(k, n);
    var t := u[i..] + rest;
    TokenChars(k, n);
    assert t[0] == u[i];
    assert i < |Key(k, n)| ==> IsWordChar(u[i]);
    assert i >= |Key(k, n)| ==> k == CIT && u[i] == '.';
    match p
    case Abbreviation(a) =>
      if i > 0 {
        assert IsWordChar(u[i - 1]);
      }
    case SwappedCitation =>
    case Citation =>
  }

  /** A scan through characters where the pattern never matches copies them. */
  lemma {:induction false} SkipChars(k: Kind, p: Pattern, pw: bool, u: string, rest: string, st: Store)
    requires forall i :: 0 <= i < |u| ==> MatchLen(p, PrevAt(pw, u, i), u[i..] + rest) == 0
    ensures MaskScan(k, p, pw, u + rest, st) == Prepend(u, MaskScan(k, p, PrevAt(pw, u, |u|), rest, st))
    decreases |u|
  {
    if u == [] {
      assert u + rest == rest;
      PrependEmpty(MaskScan(k, p, pw, rest, st));
    } else {
      var t := u + rest;
      assert u[0..] == u;
      assert MatchLen(p, pw, t) == 0;
      assert t[1..] == u[1..] + rest;
      forall i | 0 <= i < |u[1..]|
        ensures MatchLen(p, PrevAt(IsWordChar(u[0]), u[1..], i), u[1..][i..] + rest) == 0
      {
        assert u[1..][i..] == u[i + 1..];
        assert PrevAt(IsWordChar(u[0]), u[1..], i) == PrevAt(pw, u, i + 1);
      }
      SkipChars(k, p, IsWordChar(u[0]), u[1..], rest, st);
      assert PrevAt(IsWordChar(u[0]), u[1..], |u[1..]|) == PrevAt(pw, u, |u|);
      PrependAssoc([u[0]], u[1..], MaskScan(k, p, PrevAt(pw, u, |u|), rest, st));
      assert [u[0]] + u[1..] == u;
    }
  }

  /** A scan copies a token it cannot match inside. */
  lemma SkipToken(k: Kind, p: Pattern, pw: bool, k': Kind, n: nat, rest: string, st: Store)
    requires InertOn(p, k')
    ensures var u := Replacement(k', n);
      MaskScan(k, p, pw, u + rest, st) == Prepend(u, MaskScan(k, p, PrevAt(pw, u, |u|), rest, st))
  {
    var u := Replacement(k', n);
    forall i | 0 <= i < |u|
      ensures MatchLen(p, PrevAt(pw, u, i), u[i..] + rest) == 0
    {
      TokenInert(p, pw, k', n, rest, i);
    }
    SkipChars(k, p, pw, u, rest, st);
  }

  /** What a pattern matches never holds an underscore. */
  lemma MatchNoUnderscore(p: Pattern, pw: bool, t: string)
    requires PatternOk(p)
    ensures NoUnderscore(t[..MatchLen(p, pw, t)])
  {
    var m := MatchLen(p, pw, t);
    match p
    case Abbreviation(a) =>
      if m > 0 {
        assert t[..m] == a;
      }
    case SwappedCitation =>
      if m > 0 {
        var j := SpacesEnd(t, 1);
        var d := DigitsEnd(t, j + 1);
        forall i | 0 <= i < m
          ensures t[..m][i] != '_'
        {
          assert i == 0 || i < j || i == j || i < d || i == d;
        }
      }
    case Citation =>
      if m > 0 {
        var d := DigitsEnd(t, 1);
        forall i | 0 <= i < m
          ensures t[..m][i] != '_'
        {
          assert i == 0 || i < d || i == d;
        }
      }
  }

  /** A text that does not start with `_` starts with a character piece. */
  lemma FirstChar(ps: seq<Piece>)
    requires Render(ps) != [] && Render(ps)[0] != '_'
    ensures ps != [] && ps[0] == Char(Render(ps)[0])
    ensures Render(ps[1..]) == Render(ps)[1..]
  {
    if ps[0].Token? {
      TokenChars(ps[0].kind, ps[0].n);
      assert false;
    }
  }

  /** A prefix of the text without underscores is a run of character pieces. */
  lemma PlainPrefix(ps: seq<Piece>, m: nat)
    requires m <= |Render(ps)| && NoUnderscore(Render(ps)[..m])
    ensures m <= |ps|
    ensures ps[..m] == Chars(Render(ps)[..m])
    ensures Render(ps[m..]) == Render(ps)[m..]
  {
    var t := Render(ps);
    CharsPrefix(ps, m);
    assert ps == ps[..m] + ps[m..];
    RenderAppend(ps[..m], ps[m..]);
    RenderChars(t[..m]);
    assert t == t[..m] + t[m..];
  }

  lemma {:induction false} CharsPrefix(ps: seq<Piece>, m: nat)
    requires m <= |Render(ps)| && NoUnderscore(Render(ps)[..m])
    ensures m <= |ps| && ps[..m] == Chars(Render(ps)[..m])
    decreases m
  {
    if m > 0 {
      var s := Render(ps)[..m];
      assert s[0] == Render(ps)[0];
      FirstChar(ps);
      assert Render(ps[1..])[..m - 1] == s[1..];
      CharsPrefix(ps[1..], m - 1);
      assert ps[..m] == [ps[0]] + ps[1..][..m - 1];
    }
  }

  /** A pass only ever adds keys at or above the counter it starts from. */
  lemma {:induction false} ScanKeeps(k: Kind, p: Pattern, pw: bool, t: string, st: Store, n: nat)
    requires n < st.next
    ensures SameAt(st.entries, MaskScan(k, p, pw, t, st).1.entries, Key(k, n))
    decreases |t|
  {
    if t != [] {
      var m := MatchLen(p, pw, t);
      if m > 0 {
        var st1 := Bind(k, st, t[..m]);
        if Key(k, n) == Key(k, st.next) {
          KeyInjective(k, n, st.next);
        }
        ScanKeeps(k, p, IsWordChar(t[m - 1]), t[m..], st1, n);
      } else {
        ScanKeeps(k, p, IsWordChar(t[0]), t[1..], st, n);
      }
    }
  }

  function Other(k: Kind): Kind {
    if k == PH then CIT else PH
  }

  /** Pieces `qs` stand for the output `r` of a pass of kind `k` over `ps`
      that started from store `st`: they render as the output, stay plain,
      their tokens of kind `k` are below the new counter, the other kind's
      tokens are those of `ps`, known tokens stay known, and decoding the
      kind of the pass gives back `ps` decoded. */
  predicate Represents(k: Kind, ps: seq<Piece>, st: Store, qs: seq<Piece>, r: (string, Store)) {
    && Render(qs) == r.0
    && Plain(qs)
    && Below(qs, k, r.1.next)
    && Tokens(qs, Other(k)) == Tokens(ps, Other(k))
    && (Known(ps, k, st.entries) ==> Known(qs, k, r.1.entries))
    && Decode(qs, k, r.1.entries) == Decode(ps, k, st.entries)
  }

  /** A pass keeps the pieces' meaning: this is the masking half of the
      round trip. */
  lemma {:induction false} MaskPieces(k: Kind, p: Pattern, pw: bool, ps: seq<Piece>, st: Store)
    returns (qs: seq<Piece>)
    requires Plain(ps) && PatternOk(p) && (p == SwappedCitation ==> Tokens(ps, CIT) == [])
    requires Below(ps, k, st.next)
    ensures Represents(k, ps, st, qs, MaskScan(k, p, pw, Render(ps), st))
    decreases |ps|, 1
  {
    if ps == [] {
      qs := [];
    } else if ps[0].Token? {
      qs := MaskToken(k, p, pw, ps, st);
    } else {
      var m := MatchLen(p, pw, Render(ps));
      if m > 0 {
        qs := MaskMatch(k, p, pw, ps, st);
      } else {
        qs := MaskChar(k, p, pw, ps, st);
      }
    }
  }

  lemma SplitHead(ps: seq<Piece>, k: Kind)
    requires ps != []
    ensures Render(ps) == PieceText(ps[0]) + Render(ps[1..])
    ensures Tokens(ps, k) == (if ps[0].Token? && ps[0].kind == k then [ps[0].n] else []) + Tokens(ps[1..], k)
  {
  }

  lemma TailPlain(ps: seq<Piece>)
    requires ps != [] && Plain(ps)
    ensures Plain(ps[1..])
  {
    forall i | 0 <= i < |ps[1..]|
      ensures ps[1..][i] != Char('_')
    {
      assert ps[1..][i] == ps[i + 1];
    }
  }

  lemma TailBelow(ps: seq<Piece>, k: Kind, next: nat)
    requires ps != [] && Below(ps, k, next)
    ensures Below(ps[1..], k, next)
  {
    SplitHead(ps, k);
    forall n | n in Tokens(ps[1..], k)
      ensures n < next
    {
      assert n in Tokens(ps, k);
    }
  }

  /** Putting one piece in front of both sides keeps the representation,
      when the piece is a character or a token whose text the pass left
      alone. */
  lemma Cons(k: Kind, x: Piece, ps: seq<Piece>, st: Store, qs: seq<Piece>, r: (string, Store))
    requires Represents(k, ps, st, qs, r)
    requires x != Char('_')
    requires x.Token? && x.kind == k ==> x.n < r.1.next && SameAt(st.entries, r.1.entries, Key(k, x.n))
    ensures Represents(k, [x] + ps, st, [x] + qs, Prepend(PieceText(x), r))
  {
    var xps, xqs := [x] + ps, [x] + qs;
    assert xps[0] == x && xps[1..] == ps;
    assert xqs[0] == x && xqs[1..] == qs;
    SplitHead(xps, k);
    SplitHead(xps, Other(k));
    SplitHead(xqs, k);
    SplitHead(xqs, Other(k));
    PlainAppend([x], qs);
    assert Below(xqs, k, r.1.next) by {
      forall n | n in Tokens(xqs, k)
        ensures n < r.1.next
      {
        assert n in Tokens(qs, k) || (x.Token? && x.kind == k && n == x.n);
      }
    }
    assert Known(xps, k, st.entries) ==> Known(xqs, k, r.1.entries) by {
      if Known(xps, k, st.entries) {
        forall n | n in Tokens(ps, k)
          ensures Stored(st.entries, Key(k, n))
        {
          assert n in Tokens(xps, k);
        }
        if x.Token? && x.kind == k {
          assert x.n in Tokens(xps, k);
        }
        forall n | n in Tokens(xqs, k)
          ensures Stored(r.1.entries, Key(k, n))
        {
          assert n in Tokens(qs, k) || (x.Token? && x.kind == k && n == x.n);
        }
      }
    }
    assert DecodePiece(x, k, st.entries) == DecodePiece(x, k, r.1.entries);
  }

  lemma {:induction false} MaskToken(k: Kind, p: Pattern, pw: bool, ps: seq<Piece>, st: Store)
    returns (qs: seq<Piece>)
    requires Plain(ps) && PatternOk(p) && (p == SwappedCitation ==> Tokens(ps, CIT) == [])
    requires Below(ps, k, st.next)
    requires ps != [] && ps[0].Token?
    ensures Represents(k, ps, st, qs, MaskScan(k, p, pw, Render(ps), st))
    decreases |ps|, 0
  {
    var tok, rest := ps[0], ps[1..];
    var u := Replacement(tok.kind, tok.n);
    SplitHead(ps, k);
    SplitHead(ps, CIT);
    TailPlain(ps);
    TailBelow(ps, k, st.next);
    assert ps == [tok] + rest;
    var pw' := PrevAt(pw, u, |u|);
    SkipToken(k, p, pw, tok.kind, tok.n, Render(rest), st);
    var qs' := MaskPieces(k, p, pw', rest, st);
    var r := MaskScan(k, p, pw', Render(rest), st);
    if tok.kind == k {
      assert tok.n in Tokens(ps, k);
      ScanKeeps(k, p, pw', Render(rest), st, tok.n);
    }
    TokenChars(tok.kind, tok.n);
    Cons(k, tok, rest, st, qs', r);
    qs := [tok] + qs';
  }

  lemma {:induction false} MaskChar(k: Kind, p: Pattern, pw: bool, ps: seq<Piece>, st: Store)
    returns (qs: seq<Piece>)
    requires Plain(ps) && PatternOk(p) && (p == SwappedCitation ==> Tokens(ps, CIT) == [])
    requires Below(ps, k, st.next)
    requires ps != [] && ps[0].Char? && MatchLen(p, pw, Render(ps)) == 0
    ensures Represents(k, ps, st, qs, MaskScan(k, p, pw, Render(ps), st))
    decreases |ps|, 0
  {
    var x, rest := ps[0], ps[1..];
    SplitHead(ps, k);
    SplitHead(ps, CIT);
    TailPlain(ps);
    TailBelow(ps, k, st.next);
    assert ps == [x] + rest;
    var t := Render(ps);
    assert t[0] == x.c && t[1..] == Render(rest);
    assert MaskScan(k, p, pw, t, st) == Prepend([x.c], MaskScan(k, p, IsWordChar(x.c), Render(rest), st));
    var qs' := MaskPieces(k, p, IsWordChar(x.c), rest, st);
    Cons(k, x, rest, st, qs', MaskScan(k, p, IsWordChar(x.c), Render(rest), st));
    qs := [x] + qs';
  }

  /** A run of characters that the pass replaced by a new token. */
  lemma ConsMatch(k: Kind, matched: string, ps: seq<Piece>, st: Store, qs: seq<Piece>, r: (string, Store))
    requires matched != [] && NoUnderscore(matched)
    requires Below(ps, k, st.next)
    requires Represents(k, ps, Bind(k, st, matched), qs, r)
    requires SameAt(Bind(k, st, matched).entries, r.1.entries, Key(k, st.next))
    requires r.1.next >= st.next + 1
    ensures Represents(k, Chars(matched) + ps, st, [Token(k, st.next)] + qs, Prepend(Replacement(k, st.next), r))
  {
    var head := Chars(matched);
    var tok := Token(k, st.next);
    var st1 := Bind(k, st, matched);
    var xs, ys := head + ps, [tok] + qs;
    assert ys[0] == tok && ys[1..] == qs;
    SplitHead(ys, k);
    SplitHead(ys, Other(k));
    TokensChars(matched, k);
    TokensChars(matched, Other(k));
    TokensAppend(head, ps, k);
    TokensAppend(head, ps, Other(k));
    assert Tokens(xs, k) == Tokens(ps, k);
    assert Tokens(ys, k) == [st.next] + Tokens(qs, k);
    BindSame(ps, k, st, matched);
    PlainAppend([tok], qs);
    assert Stored(r.1.entries, Key(k, st.next));
    assert Below(ys, k, r.1.next) by {
      forall n | n in Tokens(ys, k)
        ensures n < r.1.next
      {
        assert n in Tokens(qs, k) || n == st.next;
      }
    }
    assert Known(xs, k, st.entries) ==> Known(ys, k, r.1.entries) by {
      if Known(xs, k, st.entries) {
        assert Known(ps, k, st.entries);
        assert Known(qs, k, r.1.entries);
        forall n | n in Tokens(ys, k)
          ensures Stored(r.1.entries, Key(k, n))
        {
          assert n in Tokens(qs, k) || n == st.next;
        }
      }
    }
    assert Decode(ys, k, r.1.entries) == head + Decode(ps, k, st.entries) by {
      assert DecodePiece(tok, k, r.1.entries) == head;
      assert Decode(ys, k, r.1.entries) == DecodePiece(tok, k, r.1.entries) + Decode(qs, k, r.1.entries);
    }
    DecodeNone(head, k, st.entries);
    DecodeAppend(head, ps, k, st.entries);
  }

  lemma {:induction false} MaskMatch(k: Kind, p: Pattern, pw: bool, ps: seq<Piece>, st: Store)
    returns (qs: seq<Piece>)
    requires Plain(ps) && PatternOk(p) && (p == SwappedCitation ==> Tokens(ps, CIT) == [])
    requires Below(ps, k, st.next)
    requires ps != [] && MatchLen(p, pw, Render(ps)) > 0
    ensures Represents(k, ps, st, qs, MaskScan(k, p, pw, Render(ps), st))
    decreases |ps|, 0
  {
    var t := Render(ps);
    var m := MatchLen(p, pw, t);
    var matched := t[..m];
    MatchNoUnderscore(p, pw, t);
    SplitMatch(ps, m);
    var rest := ps[m..];
    var st1 := Bind(k, st, matched);
    assert Below(rest, k, st1.next) by {
      forall n | n in Tokens(rest, k)
        ensures n < st1.next
      {
        assert n in Tokens(ps, k);
      }
    }
    var pw' := IsWordChar(t[m - 1]);
    var qs' := MaskPieces(k, p, pw', rest, st1);
    var r := MaskScan(k, p, pw', t[m..], st1);
    ScanMatch(k, p, pw, t, st);
    ScanKeeps(k, p, pw', t[m..], st1, st.next);
    ConsMatch(k, matched, rest, st, qs', r);
    qs := [Token(k, st.next)] + qs';
  }

  /** Splits the pieces at the end of a match without underscores. */
  lemma SplitMatch(ps: seq<Piece>, m: nat)
    requires Plain(ps) && m <= |Render(ps)| && NoUnderscore(Render(ps)[..m])
    ensures m <= |ps| && ps == Chars(Render(ps)[..m]) + ps[m..]
    ensures Render(ps[m..]) == Render(ps)[m..]
    ensures Plain(ps[m..])
    ensures forall k :: Tokens(ps[m..], k) == Tokens(ps, k)
  {
    PlainPrefix(ps, m);
    var head, rest := ps[..m], ps[m..];
    assert ps == head + rest;
    PlainAppend(head, rest);
    forall k
      ensures Tokens(rest, k) == Tokens(ps, k)
    {
      CharsThenTokens(Render(ps)[..m], rest, k);
    }
  }

  /** Characters in front of pieces add no tokens. */
  lemma CharsThenTokens(matched: string, rest: seq<Piece>, k: Kind)
    ensures Tokens(Chars(matched) + rest, k) == Tokens(rest, k)
  {
    TokensChars(matched, k);
    TokensAppend(Chars(matched), rest, k);
  }
}
