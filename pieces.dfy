/**
 * A view of a partly masked text as a sequence of pieces: characters of the
 * original (or of a stored match) and the tokens that the masking phase put
 * in their place. The round-trip proofs work on pieces because a token is a
 * unit: the restoring scans replace it whole and the masking scans cannot
 * match inside it.
 */
module Pieces {
  import opened Text
  import opened Masking
  import opened Unmasking

  datatype Piece = Char(c: char) | Token(kind: Kind, n: nat)

  function PieceText(p: Piece): string {
    match p
    case Char(c) => [c]
    case Token(k, n) => Replacement(k, n)
  }

  /** The text the pieces stand for. */
  function Render(ps: seq<Piece>): string {
    if ps == [] then [] else PieceText(ps[0]) + Render(ps[1..])
  }

  /** The characters of `s`, one piece each. */
  function Chars(s: string): (ps: seq<Piece>)
    ensures |ps| == |s|
  {
    if s == [] then [] else [Char(s[0])] + Chars(s[1..])
  }

  lemma {:induction false} RenderChars(s: string)
    ensures Render(Chars(s)) == s
  {
    if s != [] {
      assert Chars(s)[1..] == Chars(s[1..]);
      RenderChars(s[1..]);
    }
  }

  lemma {:induction false} RenderAppend(a: seq<Piece>, b: seq<Piece>)
    ensures Render(a + b) == Render(a) + Render(b)
  {
    if a == [] {
      assert a + b == b;
    } else {
      assert (a + b)[0] == a[0];
      assert (a + b)[1..] == a[1..] + b;
      RenderAppend(a[1..], b);
    }
  }

  /** The counters of the tokens of kind `k`, in order. */
  function Tokens(ps: seq<Piece>, k: Kind): seq<nat> {
    if ps == [] then []
    else (if ps[0].Token? && ps[0].kind == k then [ps[0].n] else []) + Tokens(ps[1..], k)
  }

  lemma {:induction false} TokensAppend(a: seq<Piece>, b: seq<Piece>, k: Kind)
    ensures Tokens(a + b, k) == Tokens(a, k) + Tokens(b, k)
  {
    if a == [] {
      assert a + b == b;
    } else {
      assert (a + b)[0] == a[0];
      assert (a + b)[1..] == a[1..] + b;
      TokensAppend(a[1..], b, k);
    }
  }

  lemma {:induction false} TokensChars(s: string, k: Kind)
    ensures Tokens(Chars(s), k) == []
  {
    if s != [] {
      assert Chars(s)[1..] == Chars(s[1..]);
      TokensChars(s[1..], k);
    }
  }

  /** No character piece is an underscore, so every `_` of the text belongs
      to a token. */
  predicate Plain(ps: seq<Piece>) {
    forall i :: 0 <= i < |ps| ==> ps[i] != Char('_')
  }

  /** Every token of kind `k` was made before the counter reached `next`. */
  predicate Below(ps: seq<Piece>, k: Kind, next: nat) {
    forall n :: n in Tokens(ps, k) ==> n < next
  }

  /** The store holds a non-empty text without underscores for `key`. */
  predicate Stored(store: map<string, string>, key: string) {
    key in store && store[key] != [] && NoUnderscore(store[key])
  }

  /** Every token of kind `k` has its text in the store. */
  predicate Known(ps: seq<Piece>, k: Kind, store: map<string, string>) {
    forall n :: n in Tokens(ps, k) ==> Stored(store, Key(k, n))
  }

  /** The two maps agree at `key`. */
  predicate SameAt(a: map<string, string>, b: map<string, string>, key: string) {
    (key in a <==> key in b) && (key in a ==> a[key] == b[key])
  }

  // ---------------------------------------------------------------------------
  // Decoding one kind of token
  // ---------------------------------------------------------------------------

  /** A token of kind `k` becomes the characters the restoring callback
      returns for it; every other piece stays. */
  function DecodePiece(p: Piece, k: Kind, store: map<string, string>): seq<Piece> {
    if p.Token? && p.kind == k then Chars(Lookup(store, Key(k, p.n), Replacement(k, p.n))) else [p]
  }

  function Decode(ps: seq<Piece>, k: Kind, store: map<string, string>): seq<Piece> {
    if ps == [] then [] else DecodePiece(ps[0], k, store) + Decode(ps[1..], k, store)
  }

  lemma {:induction false} DecodeAppend(a: seq<Piece>, b: seq<Piece>, k: Kind, store: map<string, string>)
    ensures Decode(a + b, k, store) == Decode(a, k, store) + Decode(b, k, store)
  {
    if a == [] {
      assert a + b == b;
    } else {
      assert (a + b)[0] == a[0];
      assert (a + b)[1..] == a[1..] + b;
      DecodeAppend(a[1..], b, k, store);
    }
  }

  /** Without tokens of kind `k` there is nothing to decode. */
  lemma {:induction false} DecodeNone(ps: seq<Piece>, k: Kind, store: map<string, string>)
    requires Tokens(ps, k) == []
    ensures Decode(ps, k, store) == ps
  {
    if ps != [] {
      DecodeNone(ps[1..], k, store);
    }
  }

  /** Decoding depends only on the store's entries for the tokens present. */
  lemma {:induction false} DecodeSame(ps: seq<Piece>, k: Kind, a: map<string, string>, b: map<string, string>)
    requires forall n :: n in Tokens(ps, k) ==> SameAt(a, b, Key(k, n))
    ensures Decode(ps, k, a) == Decode(ps, k, b)
    ensures Known(ps, k, a) <==> Known(ps, k, b)
  {
    if ps != [] {
      var head := if ps[0].Token? && ps[0].kind == k then [ps[0].n] else [];
      assert Tokens(ps, k) == head + Tokens(ps[1..], k);
      DecodeSame(ps[1..], k, a, b);
      if ps[0].Token? && ps[0].kind == k {
        assert SameAt(a, b, Key(k, ps[0].n));
        assert DecodePiece(ps[0], k, a) == DecodePiece(ps[0], k, b);
      }
    }
  }

  /** Binding the next key leaves the earlier tokens' texts alone. */
  lemma BindSame(ps: seq<Piece>, k: Kind, st: Store, original: string)
    requires Below(ps, k, st.next)
    ensures Decode(ps, k, Bind(k, st, original).entries) == Decode(ps, k, st.entries)
    ensures Known(ps, k, st.entries) <==> Known(ps, k, Bind(k, st, original).entries)
  {
    forall n | n in Tokens(ps, k)
      ensures SameAt(st.entries, Bind(k, st, original).entries, Key(k, n))
    {
      if Key(k, n) == Key(k, st.next) {
        KeyInjective(k, n, st.next);
      }
    }
    DecodeSame(ps, k, st.entries, Bind(k, st, original).entries);
  }

  /** Decoding one kind keeps the tokens of the other kind. */
  lemma {:induction false} DecodeTokens(ps: seq<Piece>, k: Kind, store: map<string, string>, k': Kind)
    ensures Tokens(Decode(ps, k, store), k') == if k' == k then [] else Tokens(ps, k')
  {
    if ps != [] {
      var head := DecodePiece(ps[0], k, store);
      if ps[0].Token? && ps[0].kind == k {
        TokensChars(Lookup(store, Key(k, ps[0].n), Replacement(k, ps[0].n)), k');
      } else {
        assert head == [ps[0]];
        assert [ps[0]][1..] == [];
      }
      TokensAppend(head, Decode(ps[1..], k, store), k');
      DecodeTokens(ps[1..], k, store, k');
    }
  }

  /** Decoding the two kinds can be done in either order. */
  lemma {:induction false} DecodeCommute(ps: seq<Piece>, store: map<string, string>, swapped: map<string, string>)
    ensures Decode(Decode(ps, PH, store), CIT, swapped) == Decode(Decode(ps, CIT, swapped), PH, store)
  {
    if ps != [] {
      var rest := ps[1..];
      DecodeAppend(DecodePiece(ps[0], PH, store), Decode(rest, PH, store), CIT, swapped);
      DecodeAppend(DecodePiece(ps[0], CIT, swapped), Decode(rest, CIT, swapped), PH, store);
      DecodeCommute(rest, store, swapped);
      var p := ps[0];
      if p.Token? {
        var s := Lookup(if p.kind == PH then store else swapped, Key(p.kind, p.n), Replacement(p.kind, p.n));
        TokensChars(s, PH);
        TokensChars(s, CIT);
        DecodeNone(Chars(s), PH, store);
        DecodeNone(Chars(s), CIT, swapped);
        assert Decode([p], PH, store) == DecodePiece(p, PH, store) + [];
        assert Decode([p], CIT, swapped) == DecodePiece(p, CIT, swapped) + [];
      } else {
        assert Decode([p], PH, store) == [p];
        assert Decode([p], CIT, swapped) == [p];
      }
    }
  }

  lemma {:induction false} PlainChars(s: string)
    requires NoUnderscore(s)
    ensures Plain(Chars(s))
  {
    if s != [] {
      PlainChars(s[1..]);
      assert Chars(s) == [Char(s[0])] + Chars(s[1..]);
    }
  }

  lemma PlainAppend(a: seq<Piece>, b: seq<Piece>)
    ensures Plain(a + b) <==> Plain(a) && Plain(b)
  {
    if Plain(a) && Plain(b) {
      forall i | 0 <= i < |a + b|
        ensures (a + b)[i] != Char('_')
      {
        if i >= |a| {
          assert (a + b)[i] == b[i - |a|];
        }
      }
    }
    if Plain(a + b) {
      forall i | 0 <= i < |a|
        ensures a[i] != Char('_')
      {
        assert (a + b)[i] == a[i];
      }
      forall i | 0 <= i < |b|
        ensures b[i] != Char('_')
      {
        assert (a + b)[|a| + i] == b[i];
      }
    }
  }

  /** Decoding known tokens keeps the pieces plain. */
  lemma {:induction false} DecodePlain(ps: seq<Piece>, k: Kind, store: map<string, string>)
    requires Plain(ps) && Known(ps, k, store)
    ensures Plain(Decode(ps, k, store))
  {
    if ps != [] {
      PlainAppend([ps[0]], ps[1..]);
      assert ps == [ps[0]] + ps[1..];
      DecodePlain(ps[1..], k, store);
      if ps[0].Token? && ps[0].kind == k {
        assert ps[0].n in Tokens(ps, k);
        PlainChars(store[Key(k, ps[0].n)]);
      }
      PlainAppend(DecodePiece(ps[0], k, store), Decode(ps[1..], k, store));
    }
  }
}
