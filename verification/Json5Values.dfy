/**
 The round trip on JSON values, spelled out in bytes: objects, arrays, strings, numbers and literal names as
 RFC 8259 writes them, with white space and comments before every token and an extra comma before the end of
 any array or object.
 */
module Json5Values {
  import opened Wrappers
  import opened Json5Scanner
  import opened Json5Segments
  import opened Json5Tokens

  // ----- Values

  /** Numbers and the names true, false and null are `Name`s; their inner grammar plays no part here. */
  datatype Value =
    | Name(text: seq<byte>)
    | Text(body: seq<byte>)
    | List(items: seq<Value>)
    | Object(members: seq<Member>)

  datatype Member = Member(key: seq<byte>, value: Value)

  /** Space, tab, line feed and carriage return. */
  predicate IsBlank(b: byte) {
    b == 32 || b == 9 || b == 10 || b == 13
  }

  /** A byte that ends a number or name: white space, a quote, a comma, a slash, a colon, a bracket or brace. */
  predicate EndsName(b: byte) {
    IsBlank(b) || b == 34 || b == 44 || b == 47 || b == 58 || b == 91 || b == 93 || b == 123 || b == 125
  }

  predicate NameOk(text: seq<byte>) {
    text != [] && forall k :: 0 <= k < |text| ==> !EndsName(text[k])
  }

  /** The inside of a string: a backslash takes the byte after it along, and there is no bare quote. */
  predicate TextOk(t: seq<byte>) {
    t == [] || (if t[0] == 92 then |t| >= 2 && TextOk(t[2..]) else t[0] != 34 && TextOk(t[1..]))
  }

  predicate ValueOk(v: Value) {
    match v
    case Name(text) => NameOk(text)
    case Text(body) => TextOk(body)
    case List(items) => forall i :: 0 <= i < |items| ==> ValueOk(items[i])
    case Object(members) => forall m :: m in members ==> TextOk(m.key) && ValueOk(m.value)
  }

  function ValueTokens(v: Value): seq<Token> {
    match v
    case Name(text) => [Scalar(text)]
    case Text(body) => [String(body)]
    case List(items) => [Punct(91)] + ItemTokens(items) + [Punct(93)]
    case Object(members) => [Punct(123)] + MemberTokens(members) + [Punct(125)]
  }

  function ItemTokens(items: seq<Value>): seq<Token> {
    if items == [] then []
    else ValueTokens(items[0]) + (if |items| == 1 then [] else [Punct(44)] + ItemTokens(items[1..]))
  }

  function MemberTokens(members: seq<Member>): seq<Token> {
    if members == [] then []
    else
      [String(members[0].key), Punct(58)] + ValueTokens(members[0].value)
        + (if |members| == 1 then [] else [Punct(44)] + MemberTokens(members[1..]))
  }

  // ----- Texts

  /** White space, a line comment with the newline that ends it, or a block comment. */
  datatype Gap = Blank(b: byte) | LineNote(body: seq<byte>, newline: byte) | BlockNote(body: seq<byte>)

  function GapText(g: Gap): seq<byte> {
    match g
    case Blank(b) => [b]
    case LineNote(body, newline) => [47, 47] + body + [newline]
    case BlockNote(body) => [47, 42] + body + [42, 47]
  }

  /** In a block comment each star has white space after it. */
  predicate GapOk(g: Gap) {
    match g
    case Blank(b) => IsBlank(b)
    case LineNote(body, newline) =>
      (newline == 10 || newline == 13) && forall k :: 0 <= k < |body| ==> body[k] != 10 && body[k] != 13
    case BlockNote(body) => forall k :: 0 <= k < |body| && body[k] == 42 ==> k + 1 < |body| && IsBlank(body[k + 1])
  }

  function GapsText(gaps: seq<Gap>): seq<byte> {
    if gaps == [] then [] else GapText(gaps[0]) + GapsText(gaps[1..])
  }

  predicate GapsOk(gaps: seq<Gap>) {
    forall k :: 0 <= k < |gaps| ==> GapOk(gaps[k])
  }

  /** What stands before a token: gaps, and perhaps an extra comma and gaps after that. */
  datatype Deco = Deco(before: seq<Gap>, extra: Option<seq<Gap>>)

  function TokenText(k: Token): seq<byte> {
    match k
    case Punct(b) => [b]
    case String(body) => [34] + body + [34]
    case Scalar(text) => text
  }

  function DecoText(d: Deco): seq<byte> {
    GapsText(d.before) + (if d.extra.Some? then [44] + GapsText(d.extra.value) else [])
  }

  /** The text of a token list. */
  function TextOf(tokens: seq<Token>, decos: seq<Deco>, tail: seq<Gap>): seq<byte>
    requires |decos| == |tokens|
  {
    if tokens == [] then GapsText(tail)
    else DecoText(decos[0]) + TokenText(tokens[0]) + TextOf(tokens[1..], decos[1..], tail)
  }

  /** An extra comma stands only before the end of an array or object. */
  predicate DecoOk(d: Deco, k: Token) {
    && GapsOk(d.before)
    && (d.extra.Some? ==> GapsOk(d.extra.value) && (k == Punct(93) || k == Punct(125)))
  }

  predicate DecosOk(tokens: seq<Token>, decos: seq<Deco>) {
    |decos| == |tokens| && forall k :: 0 <= k < |tokens| ==> DecoOk(decos[k], tokens[k])
  }

  // ----- Tokens of a value

  predicate IsEnd(k: Token) {
    k == Punct(93) || k == Punct(125)
  }

  /** No comma before an end, and no two numbers or names in a row. */
  predicate MayFollow(k: Token, next: Token) {
    !(k == Punct(44) && IsEnd(next)) && !(k.Scalar? && next.Scalar?)
  }

  predicate Chained(tokens: seq<Token>) {
    forall k :: 0 <= k < |tokens| - 1 ==> MayFollow(tokens[k], tokens[k + 1])
  }

  predicate TokensFine(tokens: seq<Token>) {
    forall k :: 0 <= k < |tokens| ==> TokenFine(tokens[k])
  }

  predicate TokenFine(k: Token) {
    match k
    case Punct(b) => b == 91 || b == 93 || b == 123 || b == 125 || b == 58 || b == 44
    case String(body) => TextOk(body)
    case Scalar(text) => NameOk(text)
  }

  lemma ChainedAppend(a: seq<Token>, b: seq<Token>)
    requires Chained(a) && Chained(b) && TokensFine(a) && TokensFine(b)
    requires a != [] && b != [] ==> MayFollow(a[|a| - 1], b[0])
    ensures Chained(a + b) && TokensFine(a + b)
  {
    var c := a + b;
    forall k | 0 <= k < |c| - 1 ensures MayFollow(c[k], c[k + 1]) {
      if k >= |a| {
        assert c[k] == b[k - |a|] && c[k + 1] == b[k + 1 - |a|];
      }
    }
  }

  /** What a value and a list of values or members have in common: no end at the start, no comma at the end. */
  predicate Edges(tokens: seq<Token>) {
    tokens != [] && !IsEnd(tokens[0]) && tokens[|tokens| - 1] != Punct(44)
  }

  predicate Sound(tokens: seq<Token>) {
    Chained(tokens) && TokensFine(tokens) && (tokens != [] ==> Edges(tokens))
  }

  lemma Enclosed(opening: byte, tokens: seq<Token>, ending: byte)
    requires (opening == 91 && ending == 93) || (opening == 123 && ending == 125)
    requires Sound(tokens)
    ensures Sound([Punct(opening)] + tokens + [Punct(ending)])
  {
    ChainedAppend([Punct(opening)], tokens);
    ChainedAppend([Punct(opening)] + tokens, [Punct(ending)]);
  }

  lemma Joined(first: seq<Token>, rest: seq<Token>)
    requires Sound(first) && Sound(rest) && first != [] && rest != []
    ensures Sound(first + ([Punct(44)] + rest))
  {
    ChainedAppend([Punct(44)], rest);
    ChainedAppend(first, [Punct(44)] + rest);
  }

  lemma Keyed(key: seq<byte>, tokens: seq<Token>)
    requires TextOk(key) && Sound(tokens) && tokens != []
    ensures Sound([String(key), Punct(58)] + tokens)
  {
    ChainedAppend([String(key), Punct(58)], tokens);
  }

  lemma {:induction false} ValueSound(v: Value)
    requires ValueOk(v)
    ensures Sound(ValueTokens(v)) && ValueTokens(v) != []
    decreases v, 0
  {
    match v
    case Name(text) =>
    case Text(body) =>
    case List(items) =>
      ItemsSound(items);
      Enclosed(91, ItemTokens(items), 93);
    case Object(members) =>
      MembersSound(members);
      Enclosed(123, MemberTokens(members), 125);
  }

  lemma {:induction false} ItemsSound(items: seq<Value>)
    requires forall i :: 0 <= i < |items| ==> ValueOk(items[i])
    ensures Sound(ItemTokens(items)) && (items != [] ==> ItemTokens(items) != [])
    decreases items, 1
  {
    if items != [] {
      var first := ValueTokens(items[0]);
      ValueSound(items[0]);
      if |items| == 1 {
        assert first + [] == first;
      } else {
        ItemsSound(items[1..]);
        Joined(first, ItemTokens(items[1..]));
      }
    }
  }

  lemma {:induction false} MembersSound(members: seq<Member>)
    requires forall m :: m in members ==> TextOk(m.key) && ValueOk(m.value)
    ensures Sound(MemberTokens(members)) && (members != [] ==> MemberTokens(members) != [])
    decreases members, 1
  {
    if members != [] {
      var m := members[0];
      var first := [String(m.key), Punct(58)] + ValueTokens(m.value);
      assert m in members;
      ValueSound(m.value);
      Keyed(m.key, ValueTokens(m.value));
      if |members| == 1 {
        assert first + [] == first;
      } else {
        MembersSound(members[1..]);
        Joined(first, MemberTokens(members[1..]));
      }
    }
  }

  // ----- The text as segments

  function GapSegments(g: Gap): seq<Segment> {
    match g
    case Blank(b) => [Plain(b)]
    case LineNote(body, newline) => [LineComment(body), Plain(newline)]
    case BlockNote(body) => [BlockComment(body)]
  }

  function GapsSegments(gaps: seq<Gap>): seq<Segment> {
    if gaps == [] then [] else GapSegments(gaps[0]) + GapsSegments(gaps[1..])
  }

  function PieceOf(d: Deco, k: Token): Piece {
    Piece(GapsSegments(d.before), if d.extra.Some? then Some(GapsSegments(d.extra.value)) else None, k)
  }

  function PiecesOf(tokens: seq<Token>, decos: seq<Deco>): (r: seq<Piece>)
    requires |decos| == |tokens|
    ensures |r| == |tokens| && forall k :: 0 <= k < |r| ==> r[k] == PieceOf(decos[k], tokens[k])
  {
    seq(|tokens|, k requires 0 <= k < |tokens| => PieceOf(decos[k], tokens[k]))
  }

  lemma {:induction false} FlattenAppend(a: seq<Segment>, b: seq<Segment>)
    ensures Flatten(a + b) == Flatten(a) + Flatten(b)
  {
    if a == [] {
      assert a + b == b;
    } else {
      assert (a + b)[1..] == a[1..] + b;
      FlattenAppend(a[1..], b);
      Assoc(Bytes(a[0]), Flatten(a[1..]), Flatten(b));
    }
  }

  lemma GapFlat(g: Gap)
    ensures Flatten(GapSegments(g)) == GapText(g)
  {
    var segs := GapSegments(g);
    if g.LineNote? {
      assert segs[1..] == [Plain(g.newline)] && segs[1..][1..] == [];
      assert Flatten(segs[1..]) == [g.newline] + [];
    } else {
      assert segs[1..] == [];
      assert Flatten(segs) == Bytes(segs[0]) + [];
    }
  }

  lemma {:induction false} GapsFlat(gaps: seq<Gap>)
    ensures Flatten(GapsSegments(gaps)) == GapsText(gaps)
  {
    if gaps != [] {
      GapFlat(gaps[0]);
      GapsFlat(gaps[1..]);
      FlattenAppend(GapSegments(gaps[0]), GapsSegments(gaps[1..]));
    }
  }

  lemma {:induction false} ScalarFlat(t: seq<byte>)
    ensures Flatten(ScalarSegments(t)) == t
  {
    if t != [] {
      assert ScalarSegments(t)[1..] == ScalarSegments(t[1..]);
      ScalarFlat(t[1..]);
      assert [t[0]] + t[1..] == t;
    }
  }

  lemma TokenFlat(k: Token)
    ensures Flatten(TokenSegments(k)) == TokenText(k)
  {
    if k.Scalar? {
      ScalarFlat(k.text);
    } else {
      assert TokenSegments(k)[1..] == [];
      assert Flatten(TokenSegments(k)) == Bytes(TokenSegments(k)[0]) + [];
    }
  }

  lemma PieceFlat(d: Deco, k: Token, rest: seq<Segment>)
    ensures var p := PieceOf(d, k);
      Flatten(p.before + WithExtra(p.extra, TokenSegments(k) + rest)) == DecoText(d) + TokenText(k) + Flatten(rest)
  {
    var p, body := PieceOf(d, k), TokenSegments(k) + rest;
    GapsFlat(d.before);
    TokenFlat(k);
    FlattenAppend(TokenSegments(k), rest);
    FlattenAppend(p.before, WithExtra(p.extra, body));
    var t, u := TokenText(k), Flatten(rest);
    if d.extra.Some? {
      GapsFlat(d.extra.value);
      FlattenAppend(p.extra.value, body);
      ConsText(Plain(COMMA), p.extra.value + body);
      Regrouped(GapsText(d.before), [44], GapsText(d.extra.value), t, u);
    } else {
      assert GapsText(d.before) + [] == GapsText(d.before);
      Assoc(GapsText(d.before), t, u);
    }
  }

  lemma Regrouped(a: seq<byte>, b: seq<byte>, c: seq<byte>, t: seq<byte>, u: seq<byte>)
    ensures a + (b + (c + (t + u))) == a + (b + c) + t + u
  {
  }

  lemma {:induction false} PrintFlat(tokens: seq<Token>, decos: seq<Deco>, tail: seq<Gap>)
    requires |decos| == |tokens|
    ensures Flatten(Print(PiecesOf(tokens, decos), GapsSegments(tail))) == TextOf(tokens, decos, tail)
  {
    var pieces := PiecesOf(tokens, decos);
    if tokens == [] {
      GapsFlat(tail);
    } else {
      assert pieces[1..] == PiecesOf(tokens[1..], decos[1..]);
      PrintFlat(tokens[1..], decos[1..], tail);
      PieceFlat(decos[0], tokens[0], Print(pieces[1..], GapsSegments(tail)));
    }
  }

  // ----- The segments are well-formed

  predicate Fine(segs: seq<Segment>) {
    WellFormed(segs) && !SlashNext(segs)
  }

  lemma ConsFine(g: Segment, segs: seq<Segment>)
    requires Fine(segs) && g != Plain(SLASH) && g != Plain(QUOTE)
    requires match g
      case Plain(_) => true
      case Literal(body) => LiteralBody(body)
      case LineComment(body) => LineBody(body) && (segs != [] ==> segs[0].Plain? && IsNL(segs[0].b))
      case BlockComment(body) => BlockBody(body)
    ensures Fine([g] + segs)
  {
    assert ([g] + segs)[1..] == segs;
  }

  lemma GapFine(g: Gap, rest: seq<Segment>)
    requires GapOk(g) && Fine(rest)
    ensures Fine(GapSegments(g) + rest)
  {
    match g
    case Blank(b) => ConsFine(Plain(b), rest);
    case LineNote(body, newline) =>
      ConsFine(Plain(newline), rest);
      ConsFine(LineComment(body), [Plain(newline)] + rest);
      assert [LineComment(body)] + ([Plain(newline)] + rest) == GapSegments(g) + rest;
    case BlockNote(body) =>
      assert BlockBody(body);
      ConsFine(BlockComment(body), rest);
  }

  lemma {:induction false} GapsFine(gaps: seq<Gap>, rest: seq<Segment>)
    requires GapsOk(gaps) && Fine(rest)
    ensures Fine(GapsSegments(gaps) + rest)
  {
    if gaps == [] {
      assert GapsSegments(gaps) + rest == rest;
    } else {
      GapsFine(gaps[1..], rest);
      GapFine(gaps[0], GapsSegments(gaps[1..]) + rest);
      assert GapSegments(gaps[0]) + (GapsSegments(gaps[1..]) + rest) == GapsSegments(gaps) + rest;
    }
  }

  lemma GapIsGap(g: Gap)
    requires GapOk(g)
    ensures IsGapList(GapSegments(g))
  {
    if g.BlockNote? {
      assert Breathes(g.body);
    }
  }

  lemma {:induction false} GapsAreGaps(gaps: seq<Gap>)
    requires GapsOk(gaps)
    ensures IsGapList(GapsSegments(gaps))
  {
    if gaps != [] {
      GapIsGap(gaps[0]);
      GapsAreGaps(gaps[1..]);
    }
  }

  lemma {:induction false} TextIsLiteral(t: seq<byte>)
    requires TextOk(t)
    ensures LiteralBody(t)
    decreases |t|
  {
    if t != [] {
      TextIsLiteral(t[if t[0] == 92 then 2 else 1..]);
    }
  }

  lemma TokenIsOk(k: Token)
    requires TokenFine(k)
    ensures TokenOk(k)
  {
    if k.String? { TextIsLiteral(k.body); }
    if k.Scalar? {
      forall i | 0 <= i < |k.text| ensures !IsDelimiter(k.text[i]) {
        assert !EndsName(k.text[i]);
      }
    }
  }

  lemma {:induction false} ScalarFine(t: seq<byte>, rest: seq<Segment>)
    requires (forall k :: 0 <= k < |t| ==> !EndsName(t[k])) && Fine(rest)
    ensures Fine(ScalarSegments(t) + rest)
  {
    if t == [] {
      assert ScalarSegments(t) + rest == rest;
    } else {
      ScalarFine(t[1..], rest);
      assert !EndsName(t[0]);
      ConsFine(Plain(t[0]), ScalarSegments(t[1..]) + rest);
      assert [Plain(t[0])] + (ScalarSegments(t[1..]) + rest) == ScalarSegments(t) + rest;
    }
  }

  lemma TokenSegmentsFine(k: Token, rest: seq<Segment>)
    requires TokenFine(k) && Fine(rest)
    ensures Fine(TokenSegments(k) + rest)
  {
    match k
    case Punct(b) => ConsFine(Plain(b), rest);
    case String(body) =>
      TextIsLiteral(body);
      ConsFine(Literal(body), rest);
    case Scalar(text) => ScalarFine(text, rest);
  }

  lemma PieceFine(d: Deco, k: Token, rest: seq<Segment>)
    requires DecoOk(d, k) && TokenFine(k) && Fine(rest)
    ensures var p := PieceOf(d, k); Fine(p.before + WithExtra(p.extra, TokenSegments(k) + rest))
    ensures PieceOk(PieceOf(d, k))
  {
    var body := TokenSegments(k) + rest;
    TokenIsOk(k);
    TokenSegmentsFine(k, rest);
    GapsAreGaps(d.before);
    if d.extra.Some? {
      GapsAreGaps(d.extra.value);
      GapsFine(d.extra.value, body);
      ConsFine(Plain(COMMA), GapsSegments(d.extra.value) + body);
    }
    GapsFine(d.before, WithExtra(PieceOf(d, k).extra, body));
  }

  lemma {:induction false} PrintFine(tokens: seq<Token>, decos: seq<Deco>, tail: seq<Gap>)
    requires DecosOk(tokens, decos) && TokensFine(tokens) && GapsOk(tail)
    ensures Fine(Print(PiecesOf(tokens, decos), GapsSegments(tail)))
    ensures forall k :: 0 <= k < |tokens| ==> PieceOk(PiecesOf(tokens, decos)[k])
  {
    var pieces := PiecesOf(tokens, decos);
    if tokens == [] {
      GapsFine(tail, []);
      assert GapsSegments(tail) + [] == GapsSegments(tail);
    } else {
      assert DecoOk(decos[0], tokens[0]) && TokenFine(tokens[0]);
      assert pieces[1..] == PiecesOf(tokens[1..], decos[1..]);
      PrintFine(tokens[1..], decos[1..], tail);
      PieceFine(decos[0], tokens[0], Print(pieces[1..], GapsSegments(tail)));
      assert forall k :: 0 < k < |tokens| ==> pieces[k] == pieces[1..][k - 1];
    }
  }

  // ----- The round trip

  lemma {:induction false} PieceTokens(tokens: seq<Token>, decos: seq<Deco>)
    requires |decos| == |tokens|
    ensures Tokens(PiecesOf(tokens, decos)) == tokens
  {
    if tokens != [] {
      PieceTokens(tokens[1..], decos[1..]);
      assert PiecesOf(tokens, decos)[1..] == PiecesOf(tokens[1..], decos[1..]);
      assert [tokens[0]] + tokens[1..] == tokens;
    }
  }

  lemma PiecesPrintable(tokens: seq<Token>, decos: seq<Deco>, tail: seq<Gap>)
    requires DecosOk(tokens, decos) && TokensFine(tokens) && Chained(tokens) && GapsOk(tail)
    ensures Printable(PiecesOf(tokens, decos))
  {
    PrintFine(tokens, decos, tail);
    var pieces := PiecesOf(tokens, decos);
    forall k | 0 <= k < |pieces| - 1 ensures Follows(pieces[k].token, pieces[k + 1]) {
      assert MayFollow(tokens[k], tokens[k + 1]);
    }
  }

  /** Any JSON value, written with any white space and comments before every token, and with an extra comma
      before the end of any array or object, is read back from the cleaned text. */
  lemma ValueRoundTrip(v: Value, decos: seq<Deco>, tail: seq<Gap>)
    requires ValueOk(v) && DecosOk(ValueTokens(v), decos) && GapsOk(tail)
    ensures Lex(Clean(TextOf(ValueTokens(v), decos, tail))) == Ok(ValueTokens(v))
  {
    var tokens := ValueTokens(v);
    var pieces := PiecesOf(tokens, decos);
    ValueSound(v);
    PrintFine(tokens, decos, tail);
    PiecesPrintable(tokens, decos, tail);
    GapsAreGaps(tail);
    RoundTrip(pieces, GapsSegments(tail));
    PrintFlat(tokens, decos, tail);
    PieceTokens(tokens, decos);
  }
}
