/**
 The configuration text cleaner: an in-place scanner that blanks comments and trailing commas.

 `Clean` is the reference: a byte-at-a-time automaton with no index arithmetic and no lookahead.
 `Prep` and `ConsumeComment` are the scanner itself, with its nested loops and index jumps, and are
 proved to compute `Clean` on every input, well formed or not.
 */
module Json5Scanner {
  import opened Wrappers

  const TAB: byte := 9
  const LF: byte := 10
  const CR: byte := 13
  const SPACE: byte := 32
  const QUOTE: byte := 34
  const STAR: byte := 42
  const COMMA: byte := 44
  const SLASH: byte := 47
  const RBRACKET: byte := 93
  const BACKSLASH: byte := 92
  const RBRACE: byte := 125

  predicate IsNL(c: byte) {
    c == LF || c == CR
  }

  predicate IsWS(c: byte) {
    c == SPACE || c == TAB || IsNL(c)
  }

  predicate IsCloser(c: byte) {
    c == RBRACE || c == RBRACKET
  }

  // ----- The reference automaton

  /** Where the automaton is: plain text, just after a slash, inside a line or block comment, just
      after a star inside a block comment, inside a string, just after a backslash in a string. */
  datatype Mode = Text | Slash | Line | Block | Star | Str | Esc

  /** `comma` is the position of a comma that would be trailing if a closer came next. */
  datatype Scan = Scan(mode: Mode, comma: Option<nat>, out: seq<byte>) {
    predicate Valid() {
      && (mode == Slash ==> |out| >= 1)
      && (mode == Str || mode == Esc ==> comma == None)
      && (comma.Some? ==> comma.value < |out| - (if mode == Slash then 1 else 0))
    }
  }

  function BlankAt(out: seq<byte>, comma: Option<nat>): (r: seq<byte>)
    requires comma.Some? ==> comma.value < |out|
    ensures |r| == |out|
  {
    if comma.Some? then out[comma.value := SPACE] else out
  }

  function TextStep(comma: Option<nat>, out: seq<byte>, b: byte): (r: Scan)
    requires comma.Some? ==> comma.value < |out|
  {
    if b == QUOTE then Scan(Str, None, out + [b])
    else if b == SLASH then Scan(Slash, comma, out + [b])
    else if b == COMMA then Scan(Text, Some(|out|), out + [b])
    else if IsCloser(b) then Scan(Text, None, BlankAt(out, comma) + [b])
    else if IsWS(b) then Scan(Text, comma, out + [b])
    else Scan(Text, None, out + [b])
  }

  function Step(sc: Scan, b: byte): (r: Scan)
    requires sc.Valid()
    ensures r.Valid() && |r.out| == |sc.out| + 1
  {
    match sc.mode
    case Text => TextStep(sc.comma, sc.out, b)
    case Slash =>
      if b == SLASH then Scan(Line, sc.comma, sc.out[..|sc.out| - 1] + [SPACE, SPACE])
      else if b == STAR then Scan(Block, sc.comma, sc.out[..|sc.out| - 1] + [SPACE, SPACE])
      else if sc.comma.Some? then Scan(Text, sc.comma, sc.out + [b])
      else TextStep(None, sc.out, b)
    case Line =>
      if IsNL(b) then Scan(Text, sc.comma, sc.out + [b])
      else Scan(Line, sc.comma, sc.out + [SPACE])
    case Block => Scan(if b == STAR then Star else Block, sc.comma, sc.out + [SPACE])
    case Star =>
      if b == SLASH then Scan(Text, sc.comma, sc.out + [SPACE])
      else Scan(Block, sc.comma, sc.out + [b])
    case Str =>
      Scan(if b == QUOTE then Text else if b == BACKSLASH then Esc else Str, None, sc.out + [b])
    case Esc => Scan(Str, None, sc.out + [b])
  }

  function Run(sc: Scan, t: seq<byte>): (r: Scan)
    requires sc.Valid()
    ensures r.Valid() && |r.out| == |sc.out| + |t|
    decreases |t|
  {
    if t == [] then sc else Run(Step(sc, t[0]), t[1..])
  }

  function Clean(t: seq<byte>): seq<byte> {
    Run(Scan(Text, None, []), t).out
  }

  lemma {:induction false} RunAppend(sc: Scan, a: seq<byte>, b: seq<byte>)
    requires sc.Valid()
    ensures Run(sc, a + b) == Run(Run(sc, a), b)
    decreases |a|
  {
    if a == [] {
      assert a + b == b;
    } else {
      assert (a + b)[1..] == a[1..] + b;
      RunAppend(Step(sc, a[0]), a[1..], b);
    }
  }

  /** What the automaton has written stays, except for the comma it waits on and a slash it has just
      seen. */
  lemma {:induction false} RunKeeps(sc: Scan, t: seq<byte>, p: nat)
    requires sc.Valid() && p < |sc.out|
    requires sc.comma != Some(p)
    requires sc.mode == Slash ==> p < |sc.out| - 1
    ensures Run(sc, t).out[p] == sc.out[p]
    decreases |t|
  {
    if t != [] {
      RunKeeps(Step(sc, t[0]), t[1..], p);
    }
  }

  /** Cleaning keeps the length and changes bytes only to spaces, on every input. */
  lemma {:induction false} CleanOnlyBlanks(t: seq<byte>)
    ensures |Clean(t)| == |t|
    ensures forall k :: 0 <= k < |t| ==> Clean(t)[k] == t[k] || Clean(t)[k] == SPACE
  {
    assert [] + t == t;
    RunOnlyBlanks(Scan(Text, None, []), [], t);
  }

  lemma {:induction false} RunOnlyBlanks(sc: Scan, done: seq<byte>, t: seq<byte>)
    requires sc.Valid() && |sc.out| == |done|
    requires forall k :: 0 <= k < |done| ==> sc.out[k] == done[k] || sc.out[k] == SPACE
    ensures forall k :: 0 <= k < |done + t| ==>
      Run(sc, t).out[k] == (done + t)[k] || Run(sc, t).out[k] == SPACE
    decreases |t|
  {
    if t == [] {
      assert done + t == done;
    } else {
      assert (done + [t[0]]) + t[1..] == done + t;
      RunOnlyBlanks(Step(sc, t[0]), done + [t[0]], t[1..]);
    }
  }

  // ----- The scanner

  /** The text the automaton ends with when it resumes at position `i` of `t`, having left the first
      `i` bytes as they are now. Past the end there is nothing left to do. */
  ghost function Resume(t: seq<byte>, mode: Mode, comma: Option<nat>, i: nat): (r: seq<byte>)
    requires i <= |t| ==> Scan(mode, comma, t[..i]).Valid()
  {
    if i <= |t| then Run(Scan(mode, comma, t[..i]), t[i..]).out else t
  }

  /** One byte of progress: the automaton consumes `t[i]` and the scanner leaves `u`. */
  lemma ResumeStep(t: seq<byte>, u: seq<byte>, sc: Scan, next: Scan, i: nat)
    requires i < |t| == |u| && sc.out == t[..i] && sc.Valid()
    requires next == Step(sc, t[i]) && next.out == u[..i + 1] && u[i + 1..] == t[i + 1..]
    ensures Resume(u, next.mode, next.comma, i + 1) == Resume(t, sc.mode, sc.comma, i)
  {
    assert t[i..][1..] == t[i + 1..];
    assert t[i..][0] == t[i];
  }

  lemma ResumeEnd(t: seq<byte>, mode: Mode, comma: Option<nat>, i: nat)
    requires |t| <= i
    requires i == |t| ==> Scan(mode, comma, t).Valid()
    ensures i == |t| ==> Scan(mode, comma, t[..i]).Valid()
    ensures Resume(t, mode, comma, i) == t
  {
    if i == |t| {
      assert t[..i] == t && t[i..] == [];
    }
  }

  /** Where the caller resumes after a comment or a lone slash: the comma loop skips one more byte. */
  ghost function ResumeAt(i: nat, comma: Option<nat>): nat {
    if comma.Some? then i + 1 else i
  }

  lemma LineStep(t: seq<byte>, comma: Option<nat>, i: nat)
    requires i < |t| && !IsNL(t[i]) && (comma.Some? ==> comma.value < i)
    ensures Resume(t[i := SPACE], Line, comma, i + 1) == Resume(t, Line, comma, i)
  {
    var u := t[i := SPACE];
    ResumeStep(t, u, Scan(Line, comma, t[..i]), Scan(Line, comma, u[..i + 1]), i);
  }

  /** A scanner that stands on a newline or at the end after a line comment may go on in plain text. */
  lemma LineEnds(t: seq<byte>, comma: Option<nat>, i: nat)
    requires i <= |t| && Scan(Line, comma, t[..i]).Valid()
    requires i < |t| ==> IsNL(t[i])
    ensures Resume(t, Text, comma, i) == Resume(t, Line, comma, i)
    ensures i < |t| ==> Resume(t, Text, comma, i + 1) == Resume(t, Line, comma, i)
  {
    if i < |t| {
      var next := Scan(Text, comma, t[..i + 1]);
      ResumeStep(t, t, Scan(Line, comma, t[..i]), next, i);
      ResumeStep(t, t, Scan(Text, comma, t[..i]), next, i);
    }
  }

  /** A scanner that stands on a blank may step over it. */
  lemma SpaceSkips(t: seq<byte>, comma: Option<nat>, i: nat)
    requires i < |t| && t[i] == SPACE && Scan(Text, comma, t[..i]).Valid()
    ensures Resume(t, Text, comma, i) == Resume(t, Text, comma, i + 1)
  {
    ResumeStep(t, t, Scan(Text, comma, t[..i]), Scan(Text, comma, t[..i + 1]), i);
  }

  /** Neither comment opener follows the slash: without a comma the byte is looked at again, with a
      comma it is swallowed. */
  lemma LoneSlash(t: seq<byte>, comma: Option<nat>, start: nat)
    requires 1 <= start <= |t| && t[start - 1] == SLASH && (comma.Some? ==> comma.value < start - 1)
    requires start < |t| ==> t[start] != SLASH && t[start] != STAR
    ensures Resume(t, Text, comma, ResumeAt(start, comma)) == Resume(t, Slash, comma, start)
  {
    if start == |t| {
      ResumeEnd(t, Slash, comma, start);
      ResumeEnd(t, Text, comma, start);
    } else if comma.Some? {
      ResumeStep(t, t, Scan(Slash, comma, t[..start]), Scan(Text, comma, t[..start + 1]), start);
    } else {
      assert t[start..][0] == t[start];
    }
  }

  /** Two comment openers: blanking the slash (and the star) and then treating the second byte as the
      first of the body comes to the same. */
  lemma EnterComment(t: seq<byte>, u: seq<byte>, mode: Mode, comma: Option<nat>, start: nat)
    requires 1 <= start < |t| && t[start - 1] == SLASH && (comma.Some? ==> comma.value < start - 1)
    requires (mode == Line && t[start] == SLASH && u == t[start - 1 := SPACE])
          || (mode == Block && t[start] == STAR && u == t[start - 1 := SPACE][start := SPACE])
    ensures Resume(u, mode, comma, start) == Resume(t, Slash, comma, start)
  {
    var w := t[start - 1 := SPACE][start := SPACE];
    var next := Scan(mode, comma, w[..start + 1]);
    assert next.out == t[..start - 1] + [SPACE, SPACE] == u[..start] + [SPACE];
    ResumeStep(t, w, Scan(Slash, comma, t[..start]), next, start);
    ResumeStep(u, w, Scan(mode, comma, u[..start]), next, start);
  }

  /** Writes one space. */
  method Blank(s: array<byte>, i: nat)
    requires i < s.Length
    modifies s
    ensures s[..] == old(s[..])[i := SPACE]
  {
    s[i] := SPACE;
  }

  /** The loop over the body of a line comment. */
  method BlankLine(s: array<byte>, start: nat, ghost comma: Option<nat>) returns (i: nat)
    requires start <= s.Length && (comma.Some? ==> comma.value < start)
    modifies s
    ensures start <= i <= s.Length && (i < s.Length ==> IsNL(s[i]))
    ensures Resume(s[..], Line, comma, i) == Resume(old(s[..]), Line, comma, start)
  {
    ghost var goal := Resume(s[..], Line, comma, start);
    i := start;
    while i < s.Length && !IsNL(s[i])
      invariant start <= i <= s.Length
      invariant Resume(s[..], Line, comma, i) == goal
    {
      LineStep(s[..], comma, i);
      Blank(s, i);
      i := i + 1;
    }
  }

  lemma BlockStep(t: seq<byte>, comma: Option<nat>, i: nat)
    requires i < |t| && (comma.Some? ==> comma.value < i)
    ensures Resume(t[i := SPACE], if t[i] == STAR then Star else Block, comma, i + 1)
         == Resume(t, Block, comma, i)
  {
    var u := t[i := SPACE];
    var mode := if t[i] == STAR then Star else Block;
    ResumeStep(t, u, Scan(Block, comma, t[..i]), Scan(mode, comma, u[..i + 1]), i);
  }

  /** After a star: the closing slash is blanked and the scanner stops on it, any other byte is left as
      it is and skipped. */
  lemma StarStep(t: seq<byte>, comma: Option<nat>, i: nat)
    requires i <= |t| && (comma.Some? ==> comma.value < i)
    ensures i == |t| || t[i] != SLASH ==>
      Resume(t, Block, comma, i + 1) == Resume(t, Star, comma, i)
    ensures i < |t| && t[i] == SLASH ==>
      Resume(t[i := SPACE], Text, comma, ResumeAt(i, comma)) == Resume(t, Star, comma, i)
  {
    if i == |t| {
      ResumeEnd(t, Star, comma, i);
    } else if t[i] == SLASH {
      var u := t[i := SPACE];
      ResumeStep(t, u, Scan(Star, comma, t[..i]), Scan(Text, comma, u[..i + 1]), i);
      SpaceSkips(u, comma, i);
    } else {
      ResumeStep(t, t, Scan(Star, comma, t[..i]), Scan(Block, comma, t[..i + 1]), i);
    }
  }

  /** One round of the loop over the body of a block comment. When the comment ends it stops on the
      blanked closing slash. */
  method BlankBlockRound(s: array<byte>, start: nat, ghost comma: Option<nat>) returns (i: nat, ended: bool)
    requires start < s.Length && (comma.Some? ==> comma.value < start)
    modifies s
    ensures start <= i && (!ended ==> start < i <= s.Length + 1)
    ensures ended ==>
      Resume(s[..], Text, comma, ResumeAt(i, comma)) == Resume(old(s[..]), Block, comma, start)
    ensures !ended ==> Resume(s[..], Block, comma, i) == Resume(old(s[..]), Block, comma, start)
  {
    i := start;
    BlockStep(s[..], comma, i);
    if s[i] != STAR {
      Blank(s, i);
    } else {
      Blank(s, i);
      i := i + 1;
      StarStep(s[..], comma, i);
      if i < s.Length {
        if s[i] == SLASH {
          Blank(s, i);
          return i, true;
        }
      }
    }
    return i + 1, false;
  }

  /** The loop over the body of a block comment. */
  method BlankBlock(s: array<byte>, start: nat, ghost comma: Option<nat>) returns (i: nat)
    requires start <= s.Length && (comma.Some? ==> comma.value < start)
    modifies s
    ensures start <= i
    ensures Resume(s[..], Text, comma, ResumeAt(i, comma)) == Resume(old(s[..]), Block, comma, start)
  {
    ghost var goal := Resume(s[..], Block, comma, start);
    i := start;
    while i < s.Length
      invariant start <= i <= s.Length + 1
      invariant Resume(s[..], Block, comma, i) == goal
      decreases s.Length + 1 - i
    {
      var ended;
      i, ended := BlankBlockRound(s, i, comma);
      if ended {
        return;
      }
    }
    ResumeEnd(s[..], Block, comma, i);
  }

  /** Blanks the comment whose slash is at `start - 1`, if there is one. `comma` is the position of
      the comma the caller is looking past, if any. */
  method ConsumeComment(s: array<byte>, start: nat, ghost comma: Option<nat>) returns (i: nat)
    requires 1 <= start <= s.Length && s[start - 1] == SLASH
    requires comma.Some? ==> comma.value < start - 1
    modifies s
    ensures start <= i
    ensures Resume(s[..], Text, comma, ResumeAt(i, comma)) == Resume(old(s[..]), Slash, comma, start)
  {
    ghost var t := s[..];
    i := start;
    if i < s.Length && s[i] == SLASH {
      Blank(s, i - 1);
      EnterComment(t, s[..], Line, comma, start);
      i := BlankLine(s, i, comma);
      LineEnds(s[..], comma, i);
      return;
    }
    if i < s.Length && s[i] == STAR {
      Blank(s, i - 1);
      Blank(s, i);
      EnterComment(t, s[..], Block, comma, start);
      i := BlankBlock(s, i, comma);
      return;
    }
    LoneSlash(t, comma, start);
  }

  lemma StrStep(t: seq<byte>, i: nat)
    requires i < |t|
    ensures t[i] == QUOTE ==> Resume(t, Text, None, i + 1) == Resume(t, Str, None, i)
    ensures t[i] == BACKSLASH ==> Resume(t, Str, None, i + 2) == Resume(t, Str, None, i)
    ensures t[i] != QUOTE && t[i] != BACKSLASH ==>
      Resume(t, Str, None, i + 1) == Resume(t, Str, None, i)
  {
    var mode := if t[i] == QUOTE then Text else if t[i] == BACKSLASH then Esc else Str;
    ResumeStep(t, t, Scan(Str, None, t[..i]), Scan(mode, None, t[..i + 1]), i);
    if t[i] == BACKSLASH {
      if i + 1 == |t| {
        ResumeEnd(t, Esc, None, i + 1);
      } else {
        ResumeStep(t, t, Scan(Esc, None, t[..i + 1]), Scan(Str, None, t[..i + 2]), i + 1);
      }
    }
  }

  /** The loop over a string literal, starting after its opening quote. It changes nothing. */
  method SkipString(s: array<byte>, start: nat) returns (i: nat)
    requires start <= s.Length
    ensures start <= i
    ensures Resume(s[..], Text, None, i) == Resume(s[..], Str, None, start)
  {
    i := start;
    while i < s.Length
      invariant start <= i <= s.Length + 1
      invariant Resume(s[..], Str, None, i) == Resume(s[..], Str, None, start)
      decreases s.Length + 1 - i
    {
      StrStep(s[..], i);
      if s[i] == QUOTE {
        i := i + 1;
        return;
      } else if s[i] == BACKSLASH {
        i := i + 1;
      }
      i := i + 1;
    }
    ResumeEnd(s[..], Str, None, i);
    ResumeEnd(s[..], Text, None, i);
  }

  /** What one byte seen past a comma does. */
  lemma CommaStep(t: seq<byte>, j: nat, i: nat)
    requires j < i <= |t|
    ensures i == |t| ==> Resume(t, Text, None, i) == Resume(t, Text, Some(j), i)
    ensures i < |t| && IsCloser(t[i]) ==>
      Resume(t[j := SPACE], Text, None, i) == Resume(t, Text, Some(j), i)
    ensures i < |t| && t[i] == SLASH ==>
      Resume(t, Slash, Some(j), i + 1) == Resume(t, Text, Some(j), i)
    ensures i < |t| && IsWS(t[i]) ==>
      Resume(t, Text, Some(j), i + 1) == Resume(t, Text, Some(j), i)
    ensures i < |t| && !IsCloser(t[i]) && t[i] != SLASH && !IsWS(t[i]) ==>
      Resume(t, Text, None, i) == Resume(t, Text, Some(j), i)
  {
    if i < |t| {
      assert t[i..][0] == t[i];
      if IsCloser(t[i]) {
        var u := t[j := SPACE];
        assert u[..i] == BlankAt(t[..i], Some(j));
        assert t[i..] == u[i..];
      } else if t[i] == SLASH {
        ResumeStep(t, t, Scan(Text, Some(j), t[..i]), Scan(Slash, Some(j), t[..i + 1]), i);
      } else if IsWS(t[i]) {
        ResumeStep(t, t, Scan(Text, Some(j), t[..i]), Scan(Text, Some(j), t[..i + 1]), i);
      }
    }
  }

  /** One round of the lookahead from the comma at `j`. */
  method SettleCommaRound(s: array<byte>, j: nat, start: nat) returns (i: nat, settled: bool)
    requires j < start <= s.Length
    modifies s
    ensures start <= i
    ensures settled ==> Resume(s[..], Text, None, i) == Resume(old(s[..]), Text, Some(j), start)
    ensures !settled ==> Resume(s[..], Text, Some(j), i + 1) == Resume(old(s[..]), Text, Some(j), start)
  {
    i := start;
    CommaStep(s[..], j, i);
    if i >= s.Length {
      return i, true;
    }
    if s[i] == RBRACE || s[i] == RBRACKET {
      Blank(s, j);
      return i, true;
    } else if s[i] == SLASH {
      i := ConsumeComment(s, i + 1, Some(j));
    } else if !IsWS(s[i]) {
      return i, true;
    }
    return i, false;
  }

  /** The lookahead from the comma at `j`: past white space and comments to the byte that decides. */
  method SettleComma(s: array<byte>, j: nat) returns (i: nat)
    requires j < s.Length
    modifies s
    ensures j < i
    ensures Resume(s[..], Text, None, i) == Resume(old(s[..]), Text, Some(j), j + 1)
  {
    ghost var goal := Resume(s[..], Text, Some(j), j + 1);
    i := j;
    var settled := false;
    while !settled
      invariant j <= i && (settled ==> j < i)
      invariant Resume(s[..], Text, if settled then None else Some(j), if settled then i else i + 1) == goal
      decreases !settled, s.Length + 1 - i
    {
      i := i + 1;
      if i > s.Length {
        ResumeEnd(s[..], Text, None, i);
        ResumeEnd(s[..], Text, Some(j), i);
        settled := true;
      } else {
        i, settled := SettleCommaRound(s, j, i);
      }
    }
  }

  lemma TextByte(t: seq<byte>, i: nat)
    requires i < |t|
    ensures t[i] == QUOTE ==> Resume(t, Str, None, i + 1) == Resume(t, Text, None, i)
    ensures t[i] == SLASH ==> Resume(t, Slash, None, i + 1) == Resume(t, Text, None, i)
    ensures t[i] == COMMA ==> Resume(t, Text, Some(i), i + 1) == Resume(t, Text, None, i)
    ensures t[i] != QUOTE && t[i] != SLASH && t[i] != COMMA ==>
      Resume(t, Text, None, i + 1) == Resume(t, Text, None, i)
  {
    var next := TextStep(None, t[..i], t[i]);
    ResumeStep(t, t, Scan(Text, None, t[..i]), next, i);
  }

  /** The scanner computes `Clean`, in place, on every input. */
  method Prep(s: array<byte>)
    modifies s
    ensures s[..] == Clean(old(s[..]))
  {
    ghost var goal := Clean(s[..]);
    assert s[..][..0] == [] && s[..][0..] == s[..];
    var i := 0;
    while i < s.Length
      invariant Resume(s[..], Text, None, i) == goal
      decreases s.Length - i
    {
      TextByte(s[..], i);
      if s[i] == QUOTE {
        i := SkipString(s, i + 1);
      } else if s[i] == SLASH {
        i := ConsumeComment(s, i + 1, None);
      } else if s[i] == COMMA {
        i := SettleComma(s, i);
      } else {
        i := i + 1;
      }
    }
    ResumeEnd(s[..], Text, None, i);
  }
}
