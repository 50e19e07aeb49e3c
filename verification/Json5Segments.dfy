/**
 What the cleaner is for, said on the structure of a text rather than on its bytes: a text is a list
 of segments, comments become spaces, a comma becomes a space when only white space and comments
 stand between it and a closer, and everything else stays.
 */
module Json5Segments {
  import opened Wrappers
  import opened Json5Scanner

  /** A string literal and a block comment are given without their delimiters, a line comment without
      its two slashes and without the newline that ends it. `Plain` is any other byte. */
  datatype Segment =
    | Plain(b: byte)
    | Literal(body: seq<byte>)
    | LineComment(body: seq<byte>)
    | BlockComment(body: seq<byte>)

  function Bytes(g: Segment): seq<byte> {
    match g
    case Plain(b) => [b]
    case Literal(body) => [QUOTE] + body + [QUOTE]
    case LineComment(body) => [SLASH, SLASH] + body
    case BlockComment(body) => [SLASH, STAR] + body + [STAR, SLASH]
  }

  function Flatten(segs: seq<Segment>): seq<byte> {
    if segs == [] then [] else Bytes(segs[0]) + Flatten(segs[1..])
  }

  /** The inside of a string literal: no bare quote, and no backslash without a byte after it. */
  predicate LiteralBody(t: seq<byte>) {
    t == [] ||
    (if t[0] == BACKSLASH then |t| >= 2 && LiteralBody(t[2..])
     else t[0] != QUOTE && LiteralBody(t[1..]))
  }

  /** The first closing mark is the one after `t`. */
  predicate BlockBody(t: seq<byte>) {
    forall k :: 0 <= k < |t| - 1 && t[k] == STAR ==> t[k + 1] != SLASH
  }

  predicate LineBody(t: seq<byte>) {
    forall k :: 0 <= k < |t| ==> !IsNL(t[k])
  }

  /** White space or a comment. */
  predicate IsGap(g: Segment) {
    match g
    case Plain(b) => IsWS(b)
    case Literal(_) => false
    case LineComment(_) => true
    case BlockComment(_) => true
  }

  /** Past white space and comments, a slash that starts no comment comes next. */
  predicate SlashNext(segs: seq<Segment>) {
    segs != [] &&
    (if IsGap(segs[0]) then SlashNext(segs[1..]) else segs[0] == Plain(SLASH))
  }

  /** A slash before these segments starts no comment. */
  predicate StandsAlone(segs: seq<Segment>) {
    segs == [] || segs[0].Literal? || (segs[0].Plain? && segs[0].b != SLASH && segs[0].b != STAR)
  }

  /** Every slash outside strings starts a comment or stands alone, and one that stands alone does not come
      next after a comma. Line comments end at a newline or at the end. */
  predicate WellFormed(segs: seq<Segment>) {
    segs == [] ||
    (WellFormed(segs[1..]) &&
     match segs[0]
     case Plain(b) =>
       b != QUOTE && (b == SLASH ==> StandsAlone(segs[1..])) && (b == COMMA ==> !SlashNext(segs[1..]))
     case Literal(body) => LiteralBody(body)
     case LineComment(body) =>
       LineBody(body) && (|segs| > 1 ==> segs[1].Plain? && IsNL(segs[1].b))
     case BlockComment(body) => BlockBody(body))
  }

  /** Past white space, comments and slashes with the byte each hides, a closer comes next. */
  predicate LeadsToCloser(segs: seq<Segment>) {
    segs != [] &&
    (if IsGap(segs[0]) then LeadsToCloser(segs[1..])
     else if segs[0] == Plain(SLASH) then |segs| > 1 && segs[1].Plain? && LeadsToCloser(segs[2..])
     else segs[0].Plain? && IsCloser(segs[0].b))
  }

  /** So it does, and at least one such slash is on the way. */
  predicate CloserBehindSlash(segs: seq<Segment>) {
    segs != [] &&
    (if IsGap(segs[0]) then CloserBehindSlash(segs[1..])
     else segs[0] == Plain(SLASH) && |segs| > 1 && segs[1].Plain? && LeadsToCloser(segs[2..]))
  }

  /** On that way a slash hides the opening quote of a string. */
  predicate QuoteBehindSlash(segs: seq<Segment>) {
    segs != [] &&
    (if IsGap(segs[0]) then QuoteBehindSlash(segs[1..])
     else segs[0] == Plain(SLASH) && |segs| > 1
          && (segs[1].Literal? || (segs[1].Plain? && QuoteBehindSlash(segs[2..]))))
  }

  /** Every slash outside strings starts a comment or stands alone, and none hides an opening quote behind a
      comma. Line comments end at a newline or at the end. */
  predicate Readable(segs: seq<Segment>) {
    segs == [] ||
    (Readable(segs[1..]) &&
     match segs[0]
     case Plain(b) =>
       b != QUOTE && (b == SLASH ==> StandsAlone(segs[1..])) && (b == COMMA ==> !QuoteBehindSlash(segs[1..]))
     case Literal(body) => LiteralBody(body)
     case LineComment(body) =>
       LineBody(body) && (|segs| > 1 ==> segs[1].Plain? && IsNL(segs[1].b))
     case BlockComment(body) => BlockBody(body))
  }

  /** No comma from which slashes and the bytes they hide lead to a closer. */
  predicate NoHiddenCloser(segs: seq<Segment>) {
    segs == [] || (NoHiddenCloser(segs[1..]) && (segs[0] == Plain(COMMA) ==> !CloserBehindSlash(segs[1..])))
  }

  /** Each star inside a block comment has a space after it. A body without stars is spaced. */
  predicate Spaced(t: seq<byte>) {
    forall k :: 0 <= k < |t| && t[k] == STAR ==> k + 1 < |t| && t[k + 1] == SPACE
  }

  predicate StarsSpaced(segs: seq<Segment>) {
    segs == [] || (StarsSpaced(segs[1..]) && (segs[0].BlockComment? ==> Spaced(segs[0].body)))
  }

  /** Past white space and comments, a closer comes next. */
  predicate ClosesNext(segs: seq<Segment>) {
    segs != [] &&
    (if IsGap(segs[0]) then ClosesNext(segs[1..]) else segs[0].Plain? && IsCloser(segs[0].b))
  }

  function Spaces(n: nat): (r: seq<byte>)
    ensures |r| == n
  {
    seq(n, _ => SPACE)
  }

  /** What the segment `g` becomes when `rest` follows it. */
  function CleanHead(g: Segment, rest: seq<Segment>): (r: seq<byte>)
    ensures |r| == |Bytes(g)|
  {
    match g
    case Plain(b) => [if b == COMMA && ClosesNext(rest) then SPACE else b]
    case Literal(_) => Bytes(g)
    case LineComment(_) => Spaces(|Bytes(g)|)
    case BlockComment(_) => Spaces(|Bytes(g)|)
  }

  /** The specification of the cleaner. */
  function Cleaned(segs: seq<Segment>): (r: seq<byte>)
    ensures |r| == |Flatten(segs)|
  {
    if segs == [] then [] else CleanHead(segs[0], segs[1..]) + Cleaned(segs[1..])
  }

  // ----- What the cleaner leaves

  /** In every star of a block comment with the byte after it, that byte does not end the comment. */
  predicate Paired(t: seq<byte>) {
    t == [] ||
    (if t[0] == STAR then |t| >= 2 && t[1] != SLASH && Paired(t[2..]) else Paired(t[1..]))
  }

  predicate StarsPaired(segs: seq<Segment>) {
    segs == [] || (StarsPaired(segs[1..]) && (segs[0].BlockComment? ==> Paired(segs[0].body)))
  }

  /** The inside of a block comment, blank but for the bytes after stars. */
  function Faded(t: seq<byte>): (r: seq<byte>)
    ensures |r| == |t|
  {
    if t == [] then []
    else if t[0] == STAR && |t| >= 2 then [SPACE, t[1]] + Faded(t[2..])
    else [SPACE] + Faded(t[1..])
  }

  /** What is left of a segment that is no blanked comma. */
  function LeftOf(g: Segment): (r: seq<byte>)
    ensures |r| == |Bytes(g)|
  {
    match g
    case Plain(b) => [b]
    case Literal(_) => Bytes(g)
    case LineComment(_) => Spaces(|Bytes(g)|)
    case BlockComment(body) => [SPACE, SPACE] + Faded(body) + [SPACE, SPACE]
  }

  function HeadLeft(g: Segment, rest: seq<Segment>): (r: seq<byte>)
    ensures |r| == |Bytes(g)|
  {
    if g == Plain(COMMA) && LeadsToCloser(rest) then [SPACE] else LeftOf(g)
  }

  /** What the cleaner leaves of a text. `waits` says whether a comma before it is still waited on: then a
      slash hides the byte after it. */
  function Left(segs: seq<Segment>, waits: bool): (r: seq<byte>)
    ensures |r| == |Flatten(segs)|
    decreases |segs|
  {
    if segs == [] then []
    else if waits && segs[0] == Plain(SLASH) && |segs| > 1 && segs[1].Plain? then
      FlattenPair(segs);
      [SLASH, segs[1].b] + Left(segs[2..], waits)
    else
      HeadLeft(segs[0], segs[1..]) + Left(segs[1..], segs[0] == Plain(COMMA) || (IsGap(segs[0]) && waits))
  }

  lemma FlattenPair(segs: seq<Segment>)
    requires |segs| > 1 && segs[0].Plain? && segs[1].Plain?
    ensures Flatten(segs) == [segs[0].b, segs[1].b] + Flatten(segs[2..])
  {
    assert segs[1..][1..] == segs[2..] && segs[1..][0] == segs[1];
    Assoc([segs[0].b], [segs[1].b], Flatten(segs[2..]));
  }

  lemma {:induction false} SpacedFades(t: seq<byte>)
    requires Spaced(t)
    ensures Paired(t) && Faded(t) == Spaces(|t|)
    decreases |t|
  {
    if t != [] {
      var n := if t[0] == STAR then 2 else 1;
      assert forall k :: 0 <= k < |t[n..]| ==> t[n..][k] == t[n + k];
      SpacedFades(t[n..]);
    }
  }

  lemma {:induction false} SpacedPaired(segs: seq<Segment>)
    requires StarsSpaced(segs)
    ensures StarsPaired(segs)
  {
    if segs != [] {
      SpacedPaired(segs[1..]);
      if segs[0].BlockComment? { SpacedFades(segs[0].body); }
    }
  }

  /** With spaced stars a segment is left as the specification asks. */
  lemma SpacedLeft(g: Segment)
    requires g.BlockComment? ==> Spaced(g.body)
    ensures g.BlockComment? ==> LeftOf(g) == Spaces(|Bytes(g)|)
  {
    if g.BlockComment? { SpacedFades(g.body); }
  }

  lemma {:induction false} LeadsExactly(segs: seq<Segment>)
    ensures LeadsToCloser(segs) <==> ClosesNext(segs) || CloserBehindSlash(segs)
    ensures !(ClosesNext(segs) && CloserBehindSlash(segs))
  {
    if segs != [] && IsGap(segs[0]) {
      LeadsExactly(segs[1..]);
    }
  }

  lemma {:induction false} NoSlashBehind(segs: seq<Segment>)
    requires !SlashNext(segs)
    ensures !CloserBehindSlash(segs) && !QuoteBehindSlash(segs)
  {
    if segs != [] && IsGap(segs[0]) {
      NoSlashBehind(segs[1..]);
    }
  }

  /** Well-formed texts are readable and hide no closer. */
  lemma {:induction false} WellFormedReads(segs: seq<Segment>)
    requires WellFormed(segs)
    ensures Readable(segs) && NoHiddenCloser(segs)
  {
    if segs != [] {
      WellFormedReads(segs[1..]);
      if segs[0] == Plain(COMMA) { NoSlashBehind(segs[1..]); }
    }
  }

  // ----- The automaton inside one segment

  lemma {:induction false} LiteralRuns(sc: Scan, t: seq<byte>)
    requires sc.Valid() && sc.mode == Str && LiteralBody(t)
    ensures Run(sc, t) == Scan(Str, None, sc.out + t)
    decreases |t|
  {
    if t == [] {
      assert sc.out + t == sc.out;
    } else if t[0] == BACKSLASH {
      var mid := Step(sc, t[0]);
      assert t[1..][1..] == t[2..];
      LiteralRuns(Step(mid, t[1]), t[2..]);
      assert sc.out + t == sc.out + [t[0]] + [t[1]] + t[2..];
    } else {
      LiteralRuns(Step(sc, t[0]), t[1..]);
      assert sc.out + t == sc.out + [t[0]] + t[1..];
    }
  }

  lemma {:induction false} LineRuns(sc: Scan, t: seq<byte>)
    requires sc.Valid() && sc.mode == Line && LineBody(t)
    ensures Run(sc, t) == Scan(Line, sc.comma, sc.out + Spaces(|t|))
    decreases |t|
  {
    if t == [] {
      assert sc.out + Spaces(0) == sc.out;
    } else {
      LineRuns(Step(sc, t[0]), t[1..]);
      assert sc.out + [SPACE] + Spaces(|t| - 1) == sc.out + Spaces(|t|);
    }
  }

  lemma {:induction false} BlockRuns(sc: Scan, t: seq<byte>)
    requires sc.Valid() && sc.mode == Block && Paired(t)
    ensures Run(sc, t) == Scan(Block, sc.comma, sc.out + Faded(t))
    decreases |t|
  {
    if t == [] {
      assert sc.out + Faded(t) == sc.out;
    } else if t[0] == STAR {
      var mid := Step(sc, t[0]);
      assert t[1..][1..] == t[2..];
      BlockRuns(Step(mid, t[1]), t[2..]);
      assert sc.out + [SPACE] + [t[1]] + Faded(t[2..]) == sc.out + ([SPACE, t[1]] + Faded(t[2..]));
    } else {
      BlockRuns(Step(sc, t[0]), t[1..]);
      assert sc.out + [SPACE] + Faded(t[1..]) == sc.out + ([SPACE] + Faded(t[1..]));
    }
  }

  lemma RunTwo(sc: Scan, a: byte, b: byte)
    requires sc.Valid()
    ensures Run(sc, [a, b]) == Step(Step(sc, a), b)
  {
    var two, one: seq<byte> := [a, b], [b];
    assert two[0] == a && two[1..] == one;
    assert one[0] == b && one[1..] == [];
    assert Run(Step(sc, a), one) == Run(Step(Step(sc, a), b), []);
  }

  lemma CommentOpens(comma: Option<nat>, out: seq<byte>, second: byte)
    requires comma.Some? ==> comma.value < |out|
    requires second == SLASH || second == STAR
    ensures Run(Scan(Text, comma, out), [SLASH, second])
         == Scan(if second == SLASH then Line else Block, comma, out + [SPACE, SPACE])
  {
    var sc, mid := Scan(Text, comma, out), Scan(Slash, comma, out + [SLASH]);
    RunTwo(sc, SLASH, second);
    assert Step(sc, SLASH) == mid;
    assert mid.out[..|mid.out| - 1] == out;
  }

  lemma RunSplit(sc: Scan, t: seq<byte>, a: seq<byte>, b: seq<byte>, mid: Scan)
    requires sc.Valid() && t == a + b && Run(sc, a) == mid
    ensures Run(sc, t) == Run(mid, b)
  {
    RunAppend(sc, a, b);
  }

  lemma RunThree(sc: Scan, a: seq<byte>, b: seq<byte>, c: seq<byte>, s1: Scan, s2: Scan, s3: Scan)
    requires sc.Valid() && Run(sc, a) == s1 && Run(s1, b) == s2 && Run(s2, c) == s3
    ensures Run(sc, a + b + c) == s3
  {
    RunAppend(sc, a, b);
    RunAppend(sc, a + b, c);
  }

  lemma AssocFour(a: seq<byte>, b: seq<byte>, c: seq<byte>, d: seq<byte>)
    ensures a + b + c + d == a + (b + c + d)
  {
  }

  lemma BlockParts(comma: Option<nat>, out: seq<byte>, body: seq<byte>)
    requires comma.Some? ==> comma.value < |out|
    requires Paired(body)
    ensures Run(Scan(Text, comma, out), [SLASH, STAR] + body + [STAR, SLASH])
         == Scan(Text, comma, out + [SPACE, SPACE] + Faded(body) + [SPACE, SPACE])
  {
    var open := Scan(Block, comma, out + [SPACE, SPACE]);
    var inside := Scan(Block, comma, open.out + Faded(body));
    CommentOpens(comma, out, STAR);
    BlockRuns(open, body);
    BlockEnds(inside);
    RunThree(Scan(Text, comma, out), [SLASH, STAR], body, [STAR, SLASH],
             open, inside, Scan(Text, comma, inside.out + [SPACE, SPACE]));
  }

  /** A block comment fades, and the comma is still waited on. */
  lemma BlockCommentRuns(comma: Option<nat>, out: seq<byte>, body: seq<byte>)
    requires comma.Some? ==> comma.value < |out|
    requires Paired(body)
    ensures Run(Scan(Text, comma, out), Bytes(BlockComment(body)))
         == Scan(Text, comma, out + LeftOf(BlockComment(body)))
  {
    BlockParts(comma, out, body);
    AssocFour(out, [SPACE, SPACE], Faded(body), [SPACE, SPACE]);
  }

  lemma BlockEnds(sc: Scan)
    requires sc.Valid() && sc.mode == Block
    ensures Run(sc, [STAR, SLASH]) == Scan(Text, sc.comma, sc.out + [SPACE, SPACE])
  {
    RunTwo(sc, STAR, SLASH);
    assert sc.out + [SPACE] + [SPACE] == sc.out + [SPACE, SPACE];
  }

  lemma LineCommentRuns(comma: Option<nat>, out: seq<byte>, body: seq<byte>)
    requires comma.Some? ==> comma.value < |out|
    requires LineBody(body)
    ensures Run(Scan(Text, comma, out), Bytes(LineComment(body)))
         == Scan(Line, comma, out + Spaces(|body| + 2))
  {
    var sc := Scan(Text, comma, out);
    CommentOpens(comma, out, SLASH);
    LineRuns(Run(sc, [SLASH, SLASH]), body);
    RunAppend(sc, [SLASH, SLASH], body);
    assert out + [SPACE, SPACE] + Spaces(|body|) == out + Spaces(|body| + 2);
  }

  lemma LiteralEnds(sc: Scan)
    requires sc.Valid() && sc.mode == Str
    ensures Run(sc, [QUOTE]) == Scan(Text, None, sc.out + [QUOTE])
  {
    assert [QUOTE][1..] == [];
    assert Run(Step(sc, QUOTE), []) == Step(sc, QUOTE);
  }

  lemma LiteralSegmentRuns(comma: Option<nat>, out: seq<byte>, body: seq<byte>)
    requires comma.Some? ==> comma.value < |out|
    requires LiteralBody(body)
    ensures Run(Scan(Text, comma, out), Bytes(Literal(body)))
         == Scan(Text, None, out + Bytes(Literal(body)))
  {
    var sc, open := Scan(Text, comma, out), Scan(Str, None, out + [QUOTE]);
    var quoted := [QUOTE] + body;
    PlainRuns(comma, out, QUOTE);
    LiteralRuns(open, body);
    RunAppend(sc, [QUOTE], body);
    RunAppend(sc, quoted, [QUOTE]);
    LiteralEnds(Scan(Str, None, out + [QUOTE] + body));
    Assoc(out, [QUOTE], body);
    Assoc(out, quoted, [QUOTE]);
  }

  lemma FlattenFirst(segs: seq<Segment>)
    requires segs != []
    ensures Flatten(segs)[0] == Bytes(segs[0])[0]
  {
  }

  /** At a segment boundary it makes no difference whether the automaton still is in a line comment. */
  lemma LineBoundary(comma: Option<nat>, out: seq<byte>, segs: seq<Segment>)
    requires comma.Some? ==> comma.value < |out|
    requires segs != [] ==> segs[0].Plain? && IsNL(segs[0].b)
    ensures Run(Scan(Line, comma, out), Flatten(segs)).out
         == Run(Scan(Text, comma, out), Flatten(segs)).out
    ensures segs != [] ==> Run(Scan(Line, comma, out), Flatten(segs)) == Run(Scan(Text, comma, out), Flatten(segs))
  {
    if segs != [] {
      FlattenFirst(segs);
    }
  }

  /** Nor, without a comma to settle, whether it has just seen a slash that stands alone. */
  lemma SlashBoundary(out: seq<byte>, segs: seq<Segment>)
    requires out != [] && StandsAlone(segs)
    ensures Run(Scan(Slash, None, out), Flatten(segs)).out == Run(Scan(Text, None, out), Flatten(segs)).out
  {
    if segs != [] {
      FlattenFirst(segs);
    }
  }

  // ----- The whole text

  function Settle(out: seq<byte>, comma: Option<nat>, closes: bool): seq<byte>
    requires comma.Some? ==> comma.value < |out|
  {
    if closes then BlankAt(out, comma) else out
  }

  /** What the automaton has written and waits on once it is past `g`. */
  function OutAfter(g: Segment, comma: Option<nat>, out: seq<byte>): (r: seq<byte>)
    requires comma.Some? ==> comma.value < |out|
    ensures |r| == |out| + |Bytes(g)|
  {
    if g.Plain? && IsCloser(g.b) then BlankAt(out, comma) + [g.b] else out + LeftOf(g)
  }

  function CommaAfter(g: Segment, comma: Option<nat>, at: nat): Option<nat> {
    if g == Plain(COMMA) then Some(at) else if IsGap(g) then comma else None
  }

  predicate SegmentOk(g: Segment) {
    match g
    case Plain(b) => b != QUOTE
    case Literal(body) => LiteralBody(body)
    case LineComment(body) => LineBody(body)
    case BlockComment(body) => Paired(body)
  }

  /** Where the automaton is at the end of `g`. */
  function ModeAfter(g: Segment): Mode {
    if g.LineComment? then Line else if g == Plain(SLASH) then Slash else Text
  }

  lemma SegmentRuns(comma: Option<nat>, out: seq<byte>, g: Segment)
    requires comma.Some? ==> comma.value < |out|
    requires SegmentOk(g) && (g == Plain(SLASH) ==> comma == None)
    ensures Run(Scan(Text, comma, out), Bytes(g))
         == Scan(ModeAfter(g), CommaAfter(g, comma, |out|), OutAfter(g, comma, out))
  {
    match g
    case Plain(b) => PlainRuns(comma, out, b);
    case Literal(body) => LiteralSegmentRuns(comma, out, body);
    case LineComment(body) => LineCommentRuns(comma, out, body);
    case BlockComment(body) => BlockCommentRuns(comma, out, body);
  }

  lemma SettleGap(out: seq<byte>, comma: Option<nat>, closes: bool, more: seq<byte>)
    requires comma.Some? ==> comma.value < |out|
    ensures Settle(out + more, comma, closes) == Settle(out, comma, closes) + more
  {
  }

  lemma SettleNew(out: seq<byte>, closes: bool)
    ensures Settle(out + [COMMA], Some(|out|), closes) == out + [if closes then SPACE else COMMA]
  {
  }

  /** Settling past `g` is settling before it and what is left of `g`. */
  lemma SettleHead(comma: Option<nat>, out: seq<byte>, segs: seq<Segment>)
    requires comma.Some? ==> comma.value < |out|
    requires segs != [] && (segs[0] == Plain(SLASH) ==> comma == None)
    ensures var g, rest := segs[0], segs[1..];
      Settle(OutAfter(g, comma, out), CommaAfter(g, comma, |out|), LeadsToCloser(rest))
      == Settle(out, comma, LeadsToCloser(segs)) + HeadLeft(g, rest)
  {
    var g, closes := segs[0], LeadsToCloser(segs[1..]);
    if g == Plain(COMMA) {
      SettleNew(out, closes);
    } else if IsGap(g) {
      SettleGap(out, comma, closes, LeftOf(g));
    }
  }

  /** A comma the automaton waits on at a segment boundary hides no opening quote. */
  lemma NextComma(comma: Option<nat>, at: nat, segs: seq<Segment>)
    requires segs != [] && Readable(segs) && (comma.Some? ==> !QuoteBehindSlash(segs))
    ensures CommaAfter(segs[0], comma, at).Some? ==> !QuoteBehindSlash(segs[1..])
  {
  }

  lemma Assoc(a: seq<byte>, b: seq<byte>, c: seq<byte>)
    ensures (a + b) + c == a + (b + c)
  {
  }

  /** Waiting on a comma, the automaton skips a slash that stands alone and the byte after it. */
  lemma PairRuns(comma: Option<nat>, out: seq<byte>, segs: seq<Segment>)
    requires comma.Some? && comma.value < |out|
    requires |segs| > 1 && segs[0] == Plain(SLASH) && segs[1].Plain? && StandsAlone(segs[1..])
    ensures Run(Scan(Text, comma, out), Flatten(segs))
         == Run(Scan(Text, comma, out + [SLASH, segs[1].b]), Flatten(segs[2..]))
  {
    FlattenPair(segs);
    SlashSwallows(comma.value, out, segs[1].b);
    RunAppend(Scan(Text, comma, out), [SLASH, segs[1].b], Flatten(segs[2..]));
  }

  lemma SlashSwallows(j: nat, out: seq<byte>, b: byte)
    requires j < |out| && b != SLASH && b != STAR
    ensures Run(Scan(Text, Some(j), out), [SLASH, b]) == Scan(Text, Some(j), out + [SLASH, b])
  {
    RunTwo(Scan(Text, Some(j), out), SLASH, b);
    assert out + [SLASH] + [b] == out + [SLASH, b];
  }

  lemma SettleJoin(out: seq<byte>, comma: Option<nat>, closes: bool, more: seq<byte>, tail: seq<byte>)
    requires comma.Some? ==> comma.value < |out|
    ensures Settle(out + more, comma, closes) + tail == Settle(out, comma, closes) + (more + tail)
  {
  }

  lemma LastSlash(comma: Option<nat>, out: seq<byte>, segs: seq<Segment>)
    requires comma.Some? && comma.value < |out| && segs == [Plain(SLASH)]
    ensures Run(Scan(Text, comma, out), Flatten(segs)).out == out + [SLASH]
    ensures Left(segs, true) == [SLASH]
  {
    assert segs[1..] == [];
    PlainRuns(comma, out, SLASH);
  }

  /** What `Left` and the comma waited on make of the rest. */
  function Result(comma: Option<nat>, out: seq<byte>, segs: seq<Segment>): seq<byte>
    requires comma.Some? ==> comma.value < |out|
  {
    Settle(out, comma, LeadsToCloser(segs)) + Left(segs, comma.Some?)
  }

  lemma PairResult(comma: Option<nat>, out: seq<byte>, segs: seq<Segment>)
    requires comma.Some? && comma.value < |out|
    requires |segs| > 1 && segs[0] == Plain(SLASH) && segs[1].Plain?
    ensures Result(comma, out, segs) == Result(comma, out + [SLASH, segs[1].b], segs[2..])
  {
    SettleJoin(out, comma, LeadsToCloser(segs[2..]), [SLASH, segs[1].b], Left(segs[2..], true));
  }

  lemma HeadResult(comma: Option<nat>, out: seq<byte>, segs: seq<Segment>)
    requires comma.Some? ==> comma.value < |out|
    requires segs != [] && (segs[0] == Plain(SLASH) ==> comma == None)
    ensures Result(comma, out, segs)
         == Result(CommaAfter(segs[0], comma, |out|), OutAfter(segs[0], comma, out), segs[1..])
  {
    var g, rest := segs[0], segs[1..];
    SettleHead(comma, out, segs);
    Assoc(Settle(out, comma, LeadsToCloser(segs)), HeadLeft(g, rest), Left(rest, CommaAfter(g, comma, |out|).Some?));
  }

  /** The automaton, entered at a segment boundary, settles the comma it waits on and leaves of the rest what
      `Left` says. */
  lemma {:induction false} SegmentsRun(comma: Option<nat>, out: seq<byte>, segs: seq<Segment>, r: seq<byte>)
    requires comma.Some? ==> comma.value < |out|
    requires Readable(segs) && StarsPaired(segs) && (comma.Some? ==> !QuoteBehindSlash(segs))
    requires r == Run(Scan(Text, comma, out), Flatten(segs)).out
    ensures r == Result(comma, out, segs)
    decreases |segs|
  {
    if segs == [] {
      assert out + [] == out;
    } else if comma.Some? && segs[0] == Plain(SLASH) {
      if |segs| == 1 {
        LastSlash(comma, out, segs);
      } else {
        PairGoesOn(segs);
        PairStars(segs);
        PairRuns(comma, out, segs);
        SegmentsRun(comma, out + [SLASH, segs[1].b], segs[2..], r);
        PairResult(comma, out, segs);
      }
    } else {
      NextComma(comma, |out|, segs);
      HeadRuns(comma, out, segs);
      SegmentsRun(CommaAfter(segs[0], comma, |out|), OutAfter(segs[0], comma, out), segs[1..], r);
      HeadResult(comma, out, segs);
    }
  }

  lemma TwoOn(segs: seq<Segment>)
    requires |segs| > 1
    ensures segs[1..][0] == segs[1] && segs[1..][1..] == segs[2..]
  {
  }

  /** Behind a comma a slash that stands alone comes with a plain byte. */
  lemma PairGoesOn(segs: seq<Segment>)
    requires |segs| > 1 && segs[0] == Plain(SLASH) && Readable(segs) && !QuoteBehindSlash(segs)
    ensures segs[1].Plain? && StandsAlone(segs[1..]) && Readable(segs[2..]) && !QuoteBehindSlash(segs[2..])
  {
    TwoOn(segs);
    assert Readable(segs[1..]);
  }

  lemma PairStars(segs: seq<Segment>)
    requires |segs| > 1 && segs[0].Plain? && segs[1].Plain?
    ensures StarsPaired(segs) == StarsPaired(segs[2..]) && StarsSpaced(segs) == StarsSpaced(segs[2..])
  {
    TwoOn(segs);
    assert StarsPaired(segs) == StarsPaired(segs[1..]) && StarsSpaced(segs) == StarsSpaced(segs[1..]);
  }

  lemma HeadRuns(comma: Option<nat>, out: seq<byte>, segs: seq<Segment>)
    requires comma.Some? ==> comma.value < |out|
    requires segs != [] && Readable(segs) && SegmentOk(segs[0]) && (segs[0] == Plain(SLASH) ==> comma == None)
    ensures var g := segs[0];
      Run(Scan(Text, comma, out), Flatten(segs)).out
      == Run(Scan(Text, CommaAfter(g, comma, |out|), OutAfter(g, comma, out)), Flatten(segs[1..])).out
  {
    var g, rest := segs[0], segs[1..];
    RunAppend(Scan(Text, comma, out), Bytes(g), Flatten(rest));
    SegmentRuns(comma, out, g);
    Boundary(CommaAfter(g, comma, |out|), OutAfter(g, comma, out), segs);
  }

  /** At a segment boundary the automaton goes on as if it were in plain text. */
  lemma Boundary(comma: Option<nat>, out: seq<byte>, segs: seq<Segment>)
    requires out != [] && (comma.Some? ==> comma.value < |out|)
    requires segs != [] && Readable(segs) && (segs[0] == Plain(SLASH) ==> comma == None)
    ensures Run(Scan(ModeAfter(segs[0]), comma, out), Flatten(segs[1..])).out
         == Run(Scan(Text, comma, out), Flatten(segs[1..])).out
  {
    var rest := segs[1..];
    if segs[0].LineComment? {
      LineBoundary(comma, out, rest);
    } else if segs[0] == Plain(SLASH) {
      SlashBoundary(out, rest);
    }
  }

  lemma PlainRuns(comma: Option<nat>, out: seq<byte>, b: byte)
    requires comma.Some? ==> comma.value < |out|
    ensures Run(Scan(Text, comma, out), [b]) == TextStep(comma, out, b)
  {
    assert [b][1..] == [];
    assert Run(TextStep(comma, out, b), []) == TextStep(comma, out, b);
  }

  /** The exact result on every readable text whose stars pair up. */
  lemma CleanLeaves(segs: seq<Segment>)
    requires Readable(segs) && StarsPaired(segs)
    ensures Clean(Flatten(segs)) == Left(segs, false)
  {
    SegmentsRun(None, [], segs, Clean(Flatten(segs)));
    assert [] + Left(segs, false) == Left(segs, false);
  }

  lemma SameSplit(a: seq<byte>, b: seq<byte>, c: seq<byte>, d: seq<byte>)
    requires |a| == |b|
    ensures a + c == b + d <==> a == b && c == d
  {
    if a + c == b + d {
      assert a == (a + c)[..|a|] && b == (b + d)[..|b|];
      assert c == (a + c)[|a|..] && d == (b + d)[|b|..];
    }
  }

  lemma SameHead(g: Segment, rest: seq<Segment>)
    requires g.BlockComment? ==> Spaced(g.body)
    ensures HeadLeft(g, rest) == CleanHead(g, rest) <==> g != Plain(COMMA) || !CloserBehindSlash(rest)
  {
    SpacedLeft(g);
    LeadsExactly(rest);
    if g.Plain? {
      assert HeadLeft(g, rest)[0] == (if g.b == COMMA && LeadsToCloser(rest) then SPACE else g.b);
      assert CleanHead(g, rest)[0] == (if g.b == COMMA && ClosesNext(rest) then SPACE else g.b);
    }
  }

  /** Behind a comma, a slash and the byte it hides are left as they are, and that is as specified. */
  lemma PairCleaned(segs: seq<Segment>)
    requires |segs| > 1 && segs[0] == Plain(SLASH) && segs[1].Plain? && !ClosesNext(segs[2..])
    ensures Cleaned(segs) == [SLASH, segs[1].b] + Cleaned(segs[2..])
  {
    var rest, tail := segs[1..], segs[2..];
    TwoOn(segs);
    assert Cleaned(rest) == [segs[1].b] + Cleaned(tail);
    Assoc([SLASH], [segs[1].b], Cleaned(tail));
  }

  lemma PairHides(segs: seq<Segment>)
    requires |segs| > 1 && segs[0] == Plain(SLASH) && segs[1].Plain? && !CloserBehindSlash(segs)
    ensures NoHiddenCloser(segs) == NoHiddenCloser(segs[2..])
    ensures !CloserBehindSlash(segs[2..]) && !ClosesNext(segs[2..])
  {
    TwoOn(segs);
    LeadsExactly(segs[2..]);
    assert NoHiddenCloser(segs) == NoHiddenCloser(segs[1..]);
  }

  lemma {:induction false} LeftMeetsSpec(segs: seq<Segment>, waits: bool)
    requires StarsSpaced(segs) && (waits ==> !CloserBehindSlash(segs))
    ensures Left(segs, waits) == Cleaned(segs) <==> NoHiddenCloser(segs)
    decreases |segs|
  {
    if segs == [] {
    } else if waits && segs[0] == Plain(SLASH) && |segs| > 1 && segs[1].Plain? {
      PairHides(segs);
      PairCleaned(segs);
      PairStars(segs);
      LeftMeetsSpec(segs[2..], waits);
      SameSplit([SLASH, segs[1].b], [SLASH, segs[1].b], Left(segs[2..], waits), Cleaned(segs[2..]));
    } else {
      var g, rest := segs[0], segs[1..];
      var on := g == Plain(COMMA) || (IsGap(g) && waits);
      SameHead(g, rest);
      SameSplit(HeadLeft(g, rest), CleanHead(g, rest), Left(rest, on), Cleaned(rest));
      if g != Plain(COMMA) || !CloserBehindSlash(rest) {
        LeftMeetsSpec(rest, on);
      }
    }
  }

  /** On a well-formed text whose block comments have only spaced stars the cleaner meets its
      specification. */
  lemma CleanMeetsSpec(segs: seq<Segment>)
    requires WellFormed(segs) && StarsSpaced(segs)
    ensures Clean(Flatten(segs)) == Cleaned(segs)
  {
    WellFormedReads(segs);
    SpacedPaired(segs);
    CleanLeaves(segs);
    LeftMeetsSpec(segs, false);
  }

  // ----- Stars that other white space follows

  /** Each star inside a block comment has white space after it. */
  predicate Breathes(t: seq<byte>) {
    forall k :: 0 <= k < |t| && t[k] == STAR ==> k + 1 < |t| && IsWS(t[k + 1])
  }

  lemma {:induction false} BreathesFades(t: seq<byte>)
    requires Breathes(t)
    ensures Paired(t) && forall k :: 0 <= k < |t| ==> IsWS(Faded(t)[k])
    decreases |t|
  {
    if t != [] {
      var n := if t[0] == STAR then 2 else 1;
      assert forall k :: 0 <= k < |t[n..]| ==> t[n..][k] == t[n + k];
      BreathesFades(t[n..]);
    }
  }

  function HeadRemains(g: Segment, rest: seq<Segment>): (r: seq<byte>)
    ensures |r| == |Bytes(g)|
  {
    if g == Plain(COMMA) && ClosesNext(rest) then [SPACE] else LeftOf(g)
  }

  /** The specification, but with bytes after stars left as they are. */
  function Remains(segs: seq<Segment>): seq<byte> {
    if segs == [] then [] else HeadRemains(segs[0], segs[1..]) + Remains(segs[1..])
  }

  lemma {:induction false} LeftRemains(segs: seq<Segment>, waits: bool)
    requires WellFormed(segs) && (waits ==> !SlashNext(segs))
    ensures Left(segs, waits) == Remains(segs)
    decreases |segs|
  {
    if segs != [] {
      var g, rest := segs[0], segs[1..];
      LeftRemains(rest, g == Plain(COMMA) || (IsGap(g) && waits));
      LeadsExactly(rest);
      if g == Plain(COMMA) { NoSlashBehind(rest); }
    }
  }

  /** What the cleaner makes of a well-formed text whose stars pair up. */
  lemma CleanRemains(segs: seq<Segment>)
    requires WellFormed(segs) && StarsPaired(segs)
    ensures Clean(Flatten(segs)) == Remains(segs)
  {
    WellFormedReads(segs);
    CleanLeaves(segs);
    LeftRemains(segs, false);
  }

  // ----- Where the cleaner misses its specification

  /** The first star without a space after it. */
  lemma {:induction false} FirstBadStar(t: seq<byte>) returns (k: nat)
    requires !Spaced(t)
    ensures k < |t| && t[k] == STAR && Spaced(t[..k])
    ensures k + 1 < |t| ==> t[k + 1] != SPACE
    decreases |t|
  {
    k :| k < |t| && t[k] == STAR && !(k + 1 < |t| && t[k + 1] == SPACE);
    var front := t[..k];
    if !Spaced(front) {
      k := FirstBadStar(front);
      assert front[..k] == t[..k] && front[k] == t[k];
    }
  }

  lemma StarBehind(sc: Scan, t: seq<byte>, a: seq<byte>, back: seq<byte>, front: seq<byte>, tail: seq<byte>,
                   open: Scan, inside: Scan, p: nat)
    requires sc.Valid() && Run(sc, a) == open && Run(open, front) == inside && inside.mode == Block
    requires t == a + back && back == front + tail
    requires |tail| >= 2 && tail[0] == STAR && tail[1] != SLASH && p == |inside.out| + 1
    ensures p < |Run(sc, t).out| && Run(sc, t).out[p] == tail[1]
  {
    RunSplit(sc, t, a, back, open);
    RunSplit(open, back, front, tail, inside);
    StarKeeps(inside, tail, tail[1]);
  }

  /** The byte after that star is left as it is. */
  lemma StarLeaves(comma: Option<nat>, out: seq<byte>, t: seq<byte>, back: seq<byte>, front: seq<byte>, tail: seq<byte>,
                   p: nat)
    requires comma.Some? ==> comma.value < |out|
    requires t == [SLASH, STAR] + back && back == front + tail && Paired(front)
    requires |tail| >= 2 && tail[0] == STAR && tail[1] != SLASH && p == |out| + |front| + 3
    ensures p < |Run(Scan(Text, comma, out), t).out| && Run(Scan(Text, comma, out), t).out[p] == tail[1]
  {
    var open := Scan(Block, comma, out + [SPACE, SPACE]);
    CommentOpens(comma, out, STAR);
    BlockRuns(open, front);
    StarBehind(Scan(Text, comma, out), t, [SLASH, STAR], back, front, tail, open, Run(open, front), p);
  }

  lemma StarKeeps(sc: Scan, t: seq<byte>, next: byte)
    requires sc.Valid() && sc.mode == Block && |t| >= 2 && t[0] == STAR && t[1] == next && next != SLASH
    ensures Run(sc, t).out[|sc.out| + 1] == next
  {
    var left := Step(Step(sc, t[0]), t[1]);
    assert t[1..][0] == t[1];
    RunKeeps(left, t[1..][1..], |sc.out| + 1);
  }

  lemma Regroup(a: seq<byte>, b: seq<byte>, c: seq<byte>, d: seq<byte>, e: seq<byte>)
    ensures ((a + (b + c)) + d) + e == a + (b + ((c + d) + e))
  {
  }

  lemma BlockShape(body: seq<byte>, tail: seq<byte>, k: nat) returns (rest: seq<byte>)
    requires BlockBody(body) && k < |body| && body[k] == STAR
    requires k + 1 < |body| ==> body[k + 1] != SPACE
    ensures |rest| >= 2 && rest[0] == STAR && rest[1] != SLASH && rest[1] != SPACE
    ensures Bytes(BlockComment(body)) + tail == [SLASH, STAR] + (body[..k] + rest)
  {
    var front, back := body[..k], body[k..];
    assert body == front + back;
    rest := (back + [STAR, SLASH]) + tail;
    Regroup([SLASH, STAR], front, back, [STAR, SLASH], tail);
  }

  /** From position `m` on, `r` is not `spec` at position `p`. */
  predicate MissesAt(r: seq<byte>, m: nat, spec: seq<byte>, p: nat) {
    p < |spec| && m + p < |r| && r[m + p] != spec[p]
  }

  lemma MissesInHead(r: seq<byte>, m: nat, spec: seq<byte>, head: seq<byte>, tail: seq<byte>, p: nat)
    requires spec == head + tail && MissesAt(r, m, head, p)
    ensures MissesAt(r, m, spec, p)
  {
  }

  lemma MissesInTail(r: seq<byte>, m: nat, n: nat, spec: seq<byte>, head: seq<byte>, tail: seq<byte>, p: nat)
    returns (q: nat)
    requires spec == head + tail && n == m + |head| && MissesAt(r, n, tail, p)
    ensures MissesAt(r, m, spec, q)
  {
    q := |head| + p;
  }

  lemma MissesSpace(r: seq<byte>, m: nat, n: nat, p: nat)
    requires p < n && m + p < |r| && r[m + p] != SPACE
    ensures MissesAt(r, m, Spaces(n), p)
  {
  }

  /** A block comment with such a star, cut in front of it. */
  lemma BadPlace(t: seq<byte>, body: seq<byte>, tail: seq<byte>) returns (front: seq<byte>, rest: seq<byte>)
    requires BlockBody(body) && !Spaced(body) && t == Bytes(BlockComment(body)) + tail
    ensures t == [SLASH, STAR] + (front + rest) && Paired(front) && |front| < |body|
    ensures |rest| >= 2 && rest[0] == STAR && rest[1] != SLASH && rest[1] != SPACE
  {
    var k := FirstBadStar(body);
    front := body[..k];
    rest := BlockShape(body, tail, k);
    SpacedFades(front);
  }

  lemma BadBody(comma: Option<nat>, out: seq<byte>, t: seq<byte>, front: seq<byte>, rest: seq<byte>, n: nat,
                r: seq<byte>) returns (p: nat)
    requires comma.Some? ==> comma.value < |out|
    requires t == [SLASH, STAR] + (front + rest) && Paired(front) && |front| + 3 < n
    requires |rest| >= 2 && rest[0] == STAR && rest[1] != SLASH && rest[1] != SPACE
    requires r == Run(Scan(Text, comma, out), t).out
    ensures MissesAt(r, |out|, Spaces(n), p)
  {
    p := |front| + 3;
    StarLeaves(comma, out, t, front + rest, front, rest, |out| + p);
    MissesSpace(r, |out|, n, p);
  }

  lemma BadHeadShows(comma: Option<nat>, out: seq<byte>, segs: seq<Segment>, r: seq<byte>) returns (p: nat)
    requires comma.Some? ==> comma.value < |out|
    requires segs != [] && segs[0].BlockComment? && BlockBody(segs[0].body) && !Spaced(segs[0].body)
    requires r == Run(Scan(Text, comma, out), Flatten(segs)).out
    ensures MissesAt(r, |out|, Cleaned(segs), p)
  {
    var g, rest := segs[0], segs[1..];
    var front, back := BadPlace(Flatten(segs), g.body, Flatten(rest));
    p := BadBody(comma, out, Flatten(segs), front, back, |Bytes(g)|, r);
    MissesInHead(r, |out|, Cleaned(segs), CleanHead(g, rest), Cleaned(rest), p);
  }

  /** A byte of the result `r` that is left where the specification asks for a space. */
  lemma {:induction false} BadStarShows(comma: Option<nat>, out: seq<byte>, segs: seq<Segment>, r: seq<byte>)
    returns (p: nat)
    requires comma.Some? ==> comma.value < |out|
    requires Readable(segs) && !StarsSpaced(segs) && (comma.Some? ==> !QuoteBehindSlash(segs))
    requires r == Run(Scan(Text, comma, out), Flatten(segs)).out
    ensures MissesAt(r, |out|, Cleaned(segs), p)
    decreases |segs|
  {
    var g := segs[0];
    if g.BlockComment? && !Spaced(g.body) {
      p := BadHeadShows(comma, out, segs, r);
    } else if comma.Some? && g == Plain(SLASH) {
      BadStarLater(segs);
      PairGoesOn(segs);
      PairStars(segs);
      PairRuns(comma, out, segs);
      var out' := out + [SLASH, segs[1].b];
      p := BadStarShows(comma, out', segs[2..], r);
      p := MissesBehindPair(r, |out|, |out'|, segs, p);
    } else {
      if g.BlockComment? { SpacedFades(g.body); }
      NextComma(comma, |out|, segs);
      HeadRuns(comma, out, segs);
      var out', rest := OutAfter(g, comma, out), segs[1..];
      p := BadStarShows(CommaAfter(g, comma, |out|), out', rest, r);
      p := MissesInTail(r, |out|, |out'|, Cleaned(segs), CleanHead(g, rest), Cleaned(rest), p);
    }
  }

  lemma BadStarLater(segs: seq<Segment>)
    requires segs != [] && !segs[0].BlockComment? && !StarsSpaced(segs)
    ensures |segs| > 1
  {
    assert segs[1..] != [];
  }

  lemma CleanedTwo(segs: seq<Segment>) returns (head: seq<byte>)
    requires |segs| > 1 && segs[0].Plain? && segs[1].Plain?
    ensures |head| == 2 && Cleaned(segs) == head + Cleaned(segs[2..])
  {
    TwoOn(segs);
    var a, b := CleanHead(segs[0], segs[1..]), CleanHead(segs[1], segs[2..]);
    assert Cleaned(segs[1..]) == b + Cleaned(segs[2..]);
    Assoc(a, b, Cleaned(segs[2..]));
    head := a + b;
  }

  lemma MissesBehindPair(r: seq<byte>, m: nat, n: nat, segs: seq<Segment>, p: nat) returns (q: nat)
    requires |segs| > 1 && segs[0].Plain? && segs[1].Plain?
    requires n == m + 2 && MissesAt(r, n, Cleaned(segs[2..]), p)
    ensures MissesAt(r, m, Cleaned(segs), q)
  {
    var head := CleanedTwo(segs);
    q := MissesInTail(r, m, n, Cleaned(segs), head, Cleaned(segs[2..]), p);
  }

  /** The cleaner meets its specification on a readable text exactly when every star inside a block comment
      has a space after it, in particular `**` before the closing slash does not close, and from no comma
      slashes and the bytes they hide lead to a closer. */
  lemma CleanMeetsSpecExactly(segs: seq<Segment>)
    requires Readable(segs)
    ensures Clean(Flatten(segs)) == Cleaned(segs) <==> StarsSpaced(segs) && NoHiddenCloser(segs)
  {
    if StarsSpaced(segs) {
      SpacedPaired(segs);
      CleanLeaves(segs);
      LeftMeetsSpec(segs, false);
    } else {
      var p := BadStarShows(None, [], segs, Clean(Flatten(segs)));
    }
  }

  /** The shortest such comment: the star is left, and the text goes on inside the comment. */
  lemma StarCommentMisses()
    ensures var segs := [BlockComment([STAR])];
      && Flatten(segs) == [SLASH, STAR, STAR, STAR, SLASH]
      && Readable(segs) && NoHiddenCloser(segs) && Clean(Flatten(segs)) != Cleaned(segs)
  {
    var segs := [BlockComment([STAR])];
    assert segs[1..] == [] && Readable(segs[1..]) && NoHiddenCloser(segs[1..]);
    assert BlockBody(segs[0].body) && Readable(segs);
    assert segs[0].body[0] == STAR && !Spaced(segs[0].body);
    CleanMeetsSpecExactly(segs);
  }

  // ----- A slash that stands alone after a comma

  /** White space and whole comments. */
  predicate IsClosedGap(gap: seq<Segment>) {
    gap == [] ||
    (IsClosedGap(gap[1..]) && IsGap(gap[0]) && SegmentOk(gap[0]) &&
     (gap[0].LineComment? ==> |gap| > 1 && gap[1].Plain? && IsNL(gap[1].b)))
  }

  function GapLeft(gap: seq<Segment>): seq<byte> {
    if gap == [] then [] else LeftOf(gap[0]) + GapLeft(gap[1..])
  }

  /** A gap is cleaned, and the comma is still waited on. */
  lemma {:induction false} GapRuns(comma: Option<nat>, out: seq<byte>, gap: seq<Segment>)
    requires comma.Some? ==> comma.value < |out|
    requires IsClosedGap(gap)
    ensures Run(Scan(Text, comma, out), Flatten(gap)) == Scan(Text, comma, out + GapLeft(gap))
    decreases |gap|
  {
    if gap == [] {
      assert out + GapLeft(gap) == out;
    } else {
      var g, rest := gap[0], gap[1..];
      var out' := out + LeftOf(g);
      SegmentRuns(comma, out, g);
      GapHead(comma, out, g);
      RunAppend(Scan(Text, comma, out), Bytes(g), Flatten(rest));
      if g.LineComment? { LineBoundary(comma, out', rest); }
      GapRuns(comma, out', rest);
      Assoc(out, LeftOf(g), GapLeft(rest));
    }
  }

  lemma GapHead(comma: Option<nat>, out: seq<byte>, g: Segment)
    requires comma.Some? ==> comma.value < |out|
    requires IsGap(g)
    ensures OutAfter(g, comma, out) == out + LeftOf(g) && CommaAfter(g, comma, |out|) == comma
    ensures ModeAfter(g) == if g.LineComment? then Line else Text
  {
  }

  /** Behind a comma, wherever it stands and whatever white space and comments come between, such a slash
      hides the byte after it: the comma is blanked over both if a closer comes next. */
  lemma LoneSlashHidesByte(comma: Option<nat>, out: seq<byte>, before: seq<Segment>, b: byte, after: seq<Segment>,
                           closer: byte)
    requires comma.Some? ==> comma.value < |out|
    requires IsClosedGap(before) && b != SLASH && b != STAR && IsClosedGap(after) && IsCloser(closer)
    ensures Run(Scan(Text, comma, out), [COMMA] + Flatten(before) + [SLASH, b] + Flatten(after) + [closer])
         == Scan(Text, None, out + [SPACE] + GapLeft(before) + [SLASH, b] + GapLeft(after) + [closer])
  {
    var sc := Scan(Text, comma, out);
    var t1 := [COMMA] + Flatten(before);
    var out1 := out + [COMMA] + GapLeft(before);
    var t2, out2 := t1 + [SLASH, b], out1 + [SLASH, b];
    var t3, out3 := t2 + Flatten(after), out2 + GapLeft(after);
    var waits := Some(|out|);
    PlainRuns(comma, out, COMMA);
    GapRuns(waits, out + [COMMA], before);
    RunAppend(sc, [COMMA], Flatten(before));
    SlashSwallows(|out|, out1, b);
    RunAppend(sc, t1, [SLASH, b]);
    GapRuns(waits, out2, after);
    RunAppend(sc, t2, Flatten(after));
    PlainRuns(waits, out3, closer);
    RunAppend(sc, t3, [closer]);
    CommaBlanked(out, GapLeft(before), [SLASH, b], GapLeft(after));
  }

  lemma CommaBlanked(out: seq<byte>, a: seq<byte>, b: seq<byte>, c: seq<byte>)
    ensures BlankAt(out + [COMMA] + a + b + c, Some(|out|)) == out + [SPACE] + a + b + c
  {
  }

  // ----- Cleaning twice

  function Blanks(n: nat): (r: seq<Segment>)
    ensures |r| == n
  {
    seq(n, _ => Plain(SPACE))
  }

  /** What a plain byte or a string literal becomes, as a segment. */
  function Kept(g: Segment, rest: seq<Segment>): Segment {
    if g == Plain(COMMA) && ClosesNext(rest) then Plain(SPACE) else g
  }

  predicate IsComment(g: Segment) {
    g.LineComment? || g.BlockComment?
  }

  /** The segments of the cleaned text. */
  function Blanked(segs: seq<Segment>): seq<Segment> {
    if segs == [] then []
    else if IsComment(segs[0]) then Blanks(|Bytes(segs[0])|) + Blanked(segs[1..])
    else [Kept(segs[0], segs[1..])] + Blanked(segs[1..])
  }

  /** Past white space and comments comes a comma that is itself trailing. */
  predicate TrailingCommaNext(segs: seq<Segment>) {
    segs != [] &&
    (if IsGap(segs[0]) then TrailingCommaNext(segs[1..])
     else segs[0] == Plain(COMMA) && ClosesNext(segs[1..]))
  }

  /** No two commas separated only by white space and comments before a closer. */
  predicate NoDoubledTrailingComma(segs: seq<Segment>) {
    segs == [] ||
    (NoDoubledTrailingComma(segs[1..]) && (segs[0] == Plain(COMMA) ==> !TrailingCommaNext(segs[1..])))
  }

  lemma ConsText(g: Segment, segs: seq<Segment>)
    ensures Flatten([g] + segs) == Bytes(g) + Flatten(segs)
    ensures Cleaned([g] + segs) == CleanHead(g, segs) + Cleaned(segs)
  {
    assert ([g] + segs)[1..] == segs;
  }

  predicate MayStandBefore(g: Segment, segs: seq<Segment>) {
    (g == Plain(SLASH) ==> StandsAlone(segs)) && (g == Plain(COMMA) ==> !SlashNext(segs))
  }

  lemma ConsShape(g: Segment, segs: seq<Segment>)
    requires !IsComment(g)
    ensures ClosesNext([g] + segs) == if IsGap(g) then ClosesNext(segs) else g.Plain? && IsCloser(g.b)
    ensures SlashNext([g] + segs) == if IsGap(g) then SlashNext(segs) else g == Plain(SLASH)
    ensures WellFormed(segs) && SegmentOk(g) && MayStandBefore(g, segs) ==> WellFormed([g] + segs)
    ensures StarsSpaced(segs) ==> StarsSpaced([g] + segs)
  {
    assert ([g] + segs)[1..] == segs;
  }

  lemma {:induction false} BlanksText(n: nat, segs: seq<Segment>)
    ensures Flatten(Blanks(n) + segs) == Spaces(n) + Flatten(segs)
    ensures Cleaned(Blanks(n) + segs) == Spaces(n) + Cleaned(segs)
  {
    if n == 0 {
      assert Blanks(0) + segs == segs;
      assert Spaces(0) + Flatten(segs) == Flatten(segs);
      assert Spaces(0) + Cleaned(segs) == Cleaned(segs);
    } else {
      BlanksText(n - 1, segs);
      assert Blanks(n) + segs == [Plain(SPACE)] + (Blanks(n - 1) + segs);
      ConsText(Plain(SPACE), Blanks(n - 1) + segs);
      SpacesCons(n, Flatten(segs));
      SpacesCons(n, Cleaned(segs));
    }
  }

  lemma SpacesCons(n: nat, t: seq<byte>)
    requires n > 0
    ensures [SPACE] + (Spaces(n - 1) + t) == Spaces(n) + t
  {
  }

  lemma {:induction false} BlanksShape(n: nat, segs: seq<Segment>)
    ensures ClosesNext(Blanks(n) + segs) == ClosesNext(segs)
    ensures SlashNext(Blanks(n) + segs) == SlashNext(segs)
    ensures WellFormed(segs) ==> WellFormed(Blanks(n) + segs)
    ensures StarsSpaced(segs) ==> StarsSpaced(Blanks(n) + segs)
  {
    if n == 0 {
      assert Blanks(0) + segs == segs;
    } else {
      BlanksShape(n - 1, segs);
      assert Blanks(n) + segs == [Plain(SPACE)] + (Blanks(n - 1) + segs);
      ConsShape(Plain(SPACE), Blanks(n - 1) + segs);
    }
  }

  lemma {:induction false} BlankedText(segs: seq<Segment>)
    ensures Flatten(Blanked(segs)) == Cleaned(segs)
  {
    if segs != [] {
      var g, rest := segs[0], segs[1..];
      BlankedText(rest);
      if IsComment(g) {
        BlanksText(|Bytes(g)|, Blanked(rest));
      } else {
        ConsText(Kept(g, rest), Blanked(rest));
      }
    }
  }

  lemma {:induction false} BlankedShape(segs: seq<Segment>)
    requires WellFormed(segs)
    ensures WellFormed(Blanked(segs)) && StarsSpaced(Blanked(segs))
    ensures ClosesNext(Blanked(segs)) <==> ClosesNext(segs) || TrailingCommaNext(segs)
    ensures SlashNext(Blanked(segs)) <==> SlashNext(segs)
    ensures StandsAlone(segs) ==> StandsAlone(Blanked(segs))
  {
    if segs != [] {
      var g, rest := segs[0], segs[1..];
      BlankedShape(rest);
      if IsComment(g) {
        BlanksShape(|Bytes(g)|, Blanked(rest));
      } else {
        ConsShape(Kept(g, rest), Blanked(rest));
      }
    }
  }

  lemma {:induction false} NotBothTrailing(segs: seq<Segment>)
    ensures !(ClosesNext(segs) && TrailingCommaNext(segs))
  {
    if segs != [] && IsGap(segs[0]) {
      NotBothTrailing(segs[1..]);
    }
  }

  lemma {:induction false} CleanedTwice(segs: seq<Segment>)
    requires WellFormed(segs)
    ensures Cleaned(Blanked(segs)) == Cleaned(segs) <==> NoDoubledTrailingComma(segs)
  {
    if segs != [] {
      var g, rest := segs[0], segs[1..];
      var again, once := Cleaned(Blanked(rest)), Cleaned(rest);
      CleanedTwice(rest);
      if IsComment(g) {
        BlanksText(|Bytes(g)|, Blanked(rest));
        SameSplit(Spaces(|Bytes(g)|), CleanHead(g, rest), again, once);
      } else {
        BlankedShape(rest);
        NotBothTrailing(rest);
        ConsText(Kept(g, rest), Blanked(rest));
        SameSplit(CleanHead(Kept(g, rest), Blanked(rest)), CleanHead(g, rest), again, once);
      }
    }
  }

  /** Cleaning a second time changes nothing exactly when no comma is followed by a trailing comma. */
  lemma CleanTwiceExactly(segs: seq<Segment>)
    requires WellFormed(segs) && StarsSpaced(segs)
    ensures Clean(Clean(Flatten(segs))) == Clean(Flatten(segs)) <==> NoDoubledTrailingComma(segs)
  {
    CleanMeetsSpec(segs);
    BlankedText(segs);
    BlankedShape(segs);
    CleanMeetsSpec(Blanked(segs));
    CleanedTwice(segs);
  }
}
