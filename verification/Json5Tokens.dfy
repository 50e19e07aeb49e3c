/**
 The round trip the cleaner exists for: JSON tokens printed with any white space and comments between
 them, and with an extra comma before closers, are the tokens read back from the cleaned text. White
 space, structural characters and strings are those of sections 2 and 7 of RFC 8259.
 */
module Json5Tokens {
  import opened Wrappers
  import opened Json5Scanner
  import opened Json5Segments

  const LBRACKET: byte := 91
  const LBRACE: byte := 123
  const COLON: byte := 58

  predicate IsStructural(b: byte) {
    b == LBRACKET || b == RBRACKET || b == LBRACE || b == RBRACE || b == COLON || b == COMMA
  }

  predicate IsDelimiter(b: byte) {
    IsWS(b) || IsStructural(b) || b == QUOTE || b == SLASH
  }

  /** A structural character, a string, or a number or literal name. */
  datatype Token =
    | Punct(b: byte)
    | String(body: seq<byte>)
    | Scalar(text: seq<byte>)

  predicate TokenOk(k: Token) {
    match k
    case Punct(b) => IsStructural(b)
    case String(body) => LiteralBody(body)
    case Scalar(text) => text != [] && forall i :: 0 <= i < |text| ==> !IsDelimiter(text[i])
  }

  predicate IsCloserToken(k: Token) {
    k.Punct? && IsCloser(k.b)
  }

  // ----- Reading

  /** The length of the string body that starts here, up to its closing quote. */
  function BodyLength(t: seq<byte>): (r: Option<nat>)
    ensures r.Some? ==> r.value < |t|
  {
    if t == [] then None
    else if t[0] == QUOTE then Some(0)
    else
      var n := if t[0] == BACKSLASH then 2 else 1;
      if |t| < n then None
      else
        var m := BodyLength(t[n..]);
        if m.Some? then Some(m.value + n) else None
  }

  function ScalarLength(t: seq<byte>): (n: nat)
    ensures n <= |t|
  {
    if t == [] || IsDelimiter(t[0]) then 0 else 1 + ScalarLength(t[1..])
  }

  datatype LexError = OpenString | StraySlash

  function Prepend(k: Token, r: Result<seq<Token>, LexError>): Result<seq<Token>, LexError> {
    if r.Ok? then Ok([k] + r.value) else r
  }

  /** The tokens of a text without comments. */
  function Lex(t: seq<byte>): Result<seq<Token>, LexError>
    decreases |t|
  {
    if t == [] then Ok([])
    else if IsWS(t[0]) then Lex(t[1..])
    else if IsStructural(t[0]) then Prepend(Punct(t[0]), Lex(t[1..]))
    else if t[0] == QUOTE then
      var n := BodyLength(t[1..]);
      if n == None then Err(OpenString)
      else Prepend(String(t[1..n.value + 1]), Lex(t[n.value + 2..]))
    else if t[0] == SLASH then Err(StraySlash)
    else
      var n := ScalarLength(t);
      Prepend(Scalar(t[..n]), Lex(t[n..]))
  }

  // ----- Printing

  /** A token with what stands before it: white space and comments, and for a closer perhaps one more
      comma with white space and comments after that. */
  datatype Piece = Piece(before: seq<Segment>, extra: Option<seq<Segment>>, token: Token)

  /** White space and comments. Inside block comments every star has white space after it. */
  predicate IsGapList(gap: seq<Segment>) {
    forall k :: 0 <= k < |gap| ==> IsGap(gap[k]) && (gap[k].BlockComment? ==> Breathes(gap[k].body))
  }

  predicate PieceOk(p: Piece) {
    && TokenOk(p.token)
    && IsGapList(p.before)
    && (p.extra.Some? ==> IsGapList(p.extra.value) && IsCloserToken(p.token))
  }

  function Tokens(pieces: seq<Piece>): seq<Token> {
    if pieces == [] then [] else [pieces[0].token] + Tokens(pieces[1..])
  }

  /** The token list needs no comma before a closer, and two scalars in a row need a gap. */
  predicate Printable(pieces: seq<Piece>) {
    && (forall k :: 0 <= k < |pieces| ==> PieceOk(pieces[k]))
    && (forall k :: 0 <= k < |pieces| - 1 ==> Follows(pieces[k].token, pieces[k + 1]))
  }

  predicate Follows(k: Token, next: Piece) {
    && !(k == Punct(COMMA) && IsCloserToken(next.token))
    && (k.Scalar? && next.token.Scalar? ==> next.before != [])
  }

  function ScalarSegments(t: seq<byte>): (r: seq<Segment>)
    ensures |r| == |t|
  {
    seq(|t|, i requires 0 <= i < |t| => Plain(t[i]))
  }

  function TokenSegments(k: Token): seq<Segment> {
    match k
    case Punct(b) => [Plain(b)]
    case String(body) => [Literal(body)]
    case Scalar(text) => ScalarSegments(text)
  }

  function TokenBytes(k: Token): seq<byte> {
    match k
    case Punct(b) => [b]
    case String(body) => Bytes(Literal(body))
    case Scalar(text) => text
  }

  function WithExtra(extra: Option<seq<Segment>>, rest: seq<Segment>): seq<Segment> {
    if extra.Some? then [Plain(COMMA)] + (extra.value + rest) else rest
  }

  function Print(pieces: seq<Piece>, tail: seq<Segment>): seq<Segment> {
    if pieces == [] then tail
    else
      pieces[0].before
        + WithExtra(pieces[0].extra, TokenSegments(pieces[0].token) + Print(pieces[1..], tail))
  }

  // ----- What cleaning makes of a printed text

  predicate AllWS(t: seq<byte>) {
    forall k :: 0 <= k < |t| ==> IsWS(t[k])
  }

  lemma ConsRemains(g: Segment, segs: seq<Segment>)
    ensures Remains([g] + segs) == HeadRemains(g, segs) + Remains(segs)
  {
    assert ([g] + segs)[1..] == segs;
  }

  lemma GapFades(g: Segment, rest: seq<Segment>)
    requires IsGap(g) && (g.BlockComment? ==> Breathes(g.body))
    ensures AllWS(HeadRemains(g, rest)) && HeadRemains(g, rest) != []
  {
    if g.BlockComment? { BreathesFades(g.body); }
  }

  /** A gap becomes white space, whatever follows it. */
  lemma {:induction false} GapCleans(gap: seq<Segment>, rest: seq<Segment>) returns (ws: seq<byte>)
    requires IsGapList(gap)
    ensures Remains(gap + rest) == ws + Remains(rest) && AllWS(ws)
    ensures ClosesNext(gap + rest) == ClosesNext(rest)
    ensures gap != [] ==> ws != []
  {
    if gap == [] {
      assert gap + rest == rest;
      ws := [];
    } else {
      assert gap + rest == [gap[0]] + (gap[1..] + rest);
      var ws' := GapCleans(gap[1..], rest);
      ConsRemains(gap[0], gap[1..] + rest);
      GapFades(gap[0], gap[1..] + rest);
      ws := HeadRemains(gap[0], gap[1..] + rest) + ws';
      Assoc(HeadRemains(gap[0], gap[1..] + rest), ws', Remains(rest));
      ConsCloses(gap[0], gap[1..] + rest);
    }
  }

  lemma ConsCloses(g: Segment, segs: seq<Segment>)
    ensures ClosesNext([g] + segs) == if IsGap(g) then ClosesNext(segs) else g.Plain? && IsCloser(g.b)
  {
    assert ([g] + segs)[1..] == segs;
  }

  lemma ScalarSplits(t: seq<byte>, rest: seq<Segment>, u: seq<byte>)
    requires t != []
    ensures ScalarSegments(t) + rest == [Plain(t[0])] + (ScalarSegments(t[1..]) + rest)
    ensures [t[0]] + (t[1..] + u) == t + u
  {
  }

  lemma {:induction false} ScalarCleans(t: seq<byte>, rest: seq<Segment>)
    requires forall i :: 0 <= i < |t| ==> !IsDelimiter(t[i])
    ensures Remains(ScalarSegments(t) + rest) == t + Remains(rest)
    ensures t != [] ==> !ClosesNext(ScalarSegments(t) + rest)
  {
    if t == [] {
      assert ScalarSegments(t) + rest == rest;
    } else {
      var more := ScalarSegments(t[1..]) + rest;
      ScalarCleans(t[1..], rest);
      ScalarSplits(t, rest, Remains(rest));
      ConsRemains(Plain(t[0]), more);
      ConsCloses(Plain(t[0]), more);
    }
  }

  /** A token is left as it is; a comma is one only when no closer follows. */
  lemma TokenCleans(k: Token, rest: seq<Segment>)
    requires TokenOk(k)
    requires k == Punct(COMMA) ==> !ClosesNext(rest)
    ensures Remains(TokenSegments(k) + rest) == TokenBytes(k) + Remains(rest)
    ensures ClosesNext(TokenSegments(k) + rest) == IsCloserToken(k)
  {
    match k
    case Punct(b) =>
      ConsRemains(Plain(b), rest);
      ConsCloses(Plain(b), rest);
    case String(body) =>
      ConsRemains(Literal(body), rest);
      ConsCloses(Literal(body), rest);
    case Scalar(text) =>
      ScalarCleans(text, rest);
  }

  /** An extra comma before a closer becomes white space like the gaps around it. */
  lemma ExtraCleans(p: Piece, rest: seq<Segment>) returns (ws: seq<byte>)
    requires PieceOk(p) && (p.extra.Some? ==> ClosesNext(rest))
    ensures Remains(p.before + WithExtra(p.extra, rest)) == ws + Remains(rest) && AllWS(ws)
    ensures p.before != [] ==> ws != []
    ensures p.extra == None ==> ClosesNext(p.before + WithExtra(p.extra, rest)) == ClosesNext(rest)
    ensures p.extra.Some? ==> !ClosesNext(p.before + WithExtra(p.extra, rest))
  {
    var ws1 := GapCleans(p.before, WithExtra(p.extra, rest));
    if p.extra == None {
      ws := ws1;
    } else {
      var ws2 := CommaCleans(p.extra.value, rest);
      ws := ws1 + ws2;
      Assoc(ws1, ws2, Remains(rest));
    }
  }

  lemma CommaCleans(gap: seq<Segment>, rest: seq<Segment>) returns (ws: seq<byte>)
    requires IsGapList(gap) && ClosesNext(rest)
    ensures Remains([Plain(COMMA)] + (gap + rest)) == ws + Remains(rest) && AllWS(ws) && ws != []
    ensures !ClosesNext([Plain(COMMA)] + (gap + rest))
  {
    var ws2 := GapCleans(gap, rest);
    ConsRemains(Plain(COMMA), gap + rest);
    ConsCloses(Plain(COMMA), gap + rest);
    ws := [SPACE] + ws2;
    Assoc([SPACE], ws2, Remains(rest));
  }

  // ----- Reading it back

  lemma {:induction false} LexSkips(ws: seq<byte>, t: seq<byte>)
    requires AllWS(ws)
    ensures Lex(ws + t) == Lex(t)
  {
    if ws == [] {
      assert ws + t == t;
    } else {
      assert (ws + t)[1..] == ws[1..] + t;
      LexSkips(ws[1..], t);
    }
  }

  lemma {:induction false} BodyMeasured(body: seq<byte>, t: seq<byte>)
    requires LiteralBody(body)
    ensures BodyLength(body + [QUOTE] + t) == Some(|body|)
  {
    if body == [] {
      assert body + [QUOTE] + t == [QUOTE] + t;
    } else {
      var n := if body[0] == BACKSLASH then 2 else 1;
      assert (body + [QUOTE] + t)[n..] == body[n..] + [QUOTE] + t;
      BodyMeasured(body[n..], t);
    }
  }

  lemma {:induction false} ScalarMeasured(s: seq<byte>, t: seq<byte>)
    requires forall i :: 0 <= i < |s| ==> !IsDelimiter(s[i])
    requires t == [] || IsDelimiter(t[0])
    ensures ScalarLength(s + t) == |s|
  {
    if s == [] {
      assert s + t == t;
    } else {
      assert (s + t)[1..] == s[1..] + t;
      ScalarMeasured(s[1..], t);
    }
  }

  lemma LexReads(k: Token, t: seq<byte>)
    requires TokenOk(k)
    requires k.Scalar? && t != [] ==> IsDelimiter(t[0])
    ensures Lex(TokenBytes(k) + t) == Prepend(k, Lex(t))
  {
    match k
    case Punct(b) => assert ([b] + t)[1..] == t;
    case String(body) => LexReadsString(body, t);
    case Scalar(text) => LexReadsScalar(text, t);
  }

  lemma LexReadsString(body: seq<byte>, t: seq<byte>)
    requires LiteralBody(body)
    ensures Lex(Bytes(Literal(body)) + t) == Prepend(String(body), Lex(t))
  {
    var u := Bytes(Literal(body)) + t;
    assert u[1..] == body + [QUOTE] + t;
    BodyMeasured(body, t);
    assert u[1..|body| + 1] == body && u[|body| + 2..] == t;
  }

  lemma LexReadsScalar(text: seq<byte>, t: seq<byte>)
    requires TokenOk(Scalar(text)) && (t != [] ==> IsDelimiter(t[0]))
    ensures Lex(text + t) == Prepend(Scalar(text), Lex(t))
  {
    var u := text + t;
    ScalarMeasured(text, t);
    assert u[0] == text[0] && u[..|text|] == text && u[|text|..] == t;
  }

  /** What the text after a token begins with, as far as reading the token needs it. */
  predicate Bounded(k: Token, t: seq<byte>) {
    k.Scalar? && t != [] ==> IsDelimiter(t[0])
  }

  lemma {:induction false} PrintedReads(pieces: seq<Piece>, tail: seq<Segment>)
    requires Printable(pieces) && IsGapList(tail)
    ensures Lex(Remains(Print(pieces, tail))) == Ok(Tokens(pieces))
    ensures pieces != [] ==> (ClosesNext(Print(pieces, tail)) ==> IsCloserToken(pieces[0].token))
    ensures pieces == [] ==> !ClosesNext(Print(pieces, tail))
    ensures forall k :: pieces != [] && Follows(k, pieces[0]) ==> Bounded(k, Remains(Print(pieces, tail)))
    ensures forall k :: pieces == [] ==> Bounded(k, Remains(Print(pieces, tail)))
  {
    if pieces == [] {
      var ws := GapCleans(tail, []);
      assert tail + [] == tail && ws + [] == ws;
      LexSkips(ws, []);
    } else {
      var p, rest := pieces[0], Print(pieces[1..], tail);
      assert forall k :: 0 <= k < |pieces[1..]| ==> pieces[1..][k] == pieces[k + 1];
      PrintedReads(pieces[1..], tail);
      if |pieces| > 1 { assert Follows(p.token, pieces[1..][0]); }
      TokenCleans(p.token, rest);
      LexReads(p.token, Remains(rest));
      var ws := ExtraCleans(p, TokenSegments(p.token) + rest);
      LexSkips(ws, TokenBytes(p.token) + Remains(rest));
    }
  }

  lemma {:induction false} PairedAppend(a: seq<Segment>, b: seq<Segment>)
    ensures StarsPaired(a + b) <==> StarsPaired(a) && StarsPaired(b)
  {
    if a == [] {
      assert a + b == b;
    } else {
      assert (a + b)[1..] == a[1..] + b && (a + b)[0] == a[0];
      PairedAppend(a[1..], b);
    }
  }

  lemma {:induction false} GapPaired(gap: seq<Segment>)
    requires IsGapList(gap)
    ensures StarsPaired(gap)
  {
    if gap != [] {
      GapPaired(gap[1..]);
      if gap[0].BlockComment? { BreathesFades(gap[0].body); }
    }
  }

  lemma {:induction false} NoBlocksPaired(segs: seq<Segment>)
    requires forall k :: 0 <= k < |segs| ==> !segs[k].BlockComment?
    ensures StarsPaired(segs)
  {
    if segs != [] {
      NoBlocksPaired(segs[1..]);
    }
  }

  lemma PiecePaired(p: Piece, rest: seq<Segment>)
    requires PieceOk(p) && StarsPaired(rest)
    ensures StarsPaired(p.before + WithExtra(p.extra, TokenSegments(p.token) + rest))
  {
    var k := TokenSegments(p.token) + rest;
    NoBlocksPaired(TokenSegments(p.token));
    PairedAppend(TokenSegments(p.token), rest);
    if p.extra.Some? {
      GapPaired(p.extra.value);
      PairedAppend(p.extra.value, k);
      NoBlocksPaired([Plain(COMMA)]);
      PairedAppend([Plain(COMMA)], p.extra.value + k);
    }
    GapPaired(p.before);
    PairedAppend(p.before, WithExtra(p.extra, k));
  }

  lemma {:induction false} PrintPaired(pieces: seq<Piece>, tail: seq<Segment>)
    requires Printable(pieces) && IsGapList(tail)
    ensures StarsPaired(Print(pieces, tail))
  {
    if pieces == [] {
      GapPaired(tail);
    } else {
      assert forall k :: 0 <= k < |pieces[1..]| ==> pieces[1..][k] == pieces[k + 1];
      PrintPaired(pieces[1..], tail);
      PiecePaired(pieces[0], Print(pieces[1..], tail));
    }
  }

  /** Decorate and strip: the tokens come back from the cleaned text, also where the white space after a star
      is not blanked. */
  lemma RoundTrip(pieces: seq<Piece>, tail: seq<Segment>)
    requires Printable(pieces) && IsGapList(tail) && WellFormed(Print(pieces, tail))
    ensures Lex(Clean(Flatten(Print(pieces, tail)))) == Ok(Tokens(pieces))
  {
    PrintPaired(pieces, tail);
    CleanRemains(Print(pieces, tail));
    PrintedReads(pieces, tail);
  }
}
