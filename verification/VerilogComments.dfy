/**
  _without_verilog_comments of scripts/quartus_connectivity_source_closure.py: comments become
  blanks of the same length, everything else stays.
*/
module VerilogComments {
  import opened Outcomes

  datatype State = Code | InString | InLine | InBlock

  predicate Newline(c: char) { c == '\r' || c == '\n' }

  /** The scanner's output for the rest of the text, from one of its four states. */
  function Blank(state: State, t: string): string
    decreases |t|
  {
    if t == [] then []
    else
      var pair := |t| > 1;
      match state
      case Code =>
        if t[0] == '"' then [t[0]] + Blank(InString, t[1..])
        else if t[0] == '/' && pair && t[1] == '/' then "  " + Blank(InLine, t[2..])
        else if t[0] == '/' && pair && t[1] == '*' then "  " + Blank(InBlock, t[2..])
        else [t[0]] + Blank(Code, t[1..])
      case InString =>
        if t[0] == '\\' && pair then [t[0], t[1]] + Blank(InString, t[2..])
        else [t[0]] + Blank(if t[0] == '"' then Code else InString, t[1..])
      case InLine =>
        if Newline(t[0]) then [t[0]] + Blank(Code, t[1..]) else [' '] + Blank(InLine, t[1..])
      case InBlock =>
        if t[0] == '*' && pair && t[1] == '/' then "  " + Blank(Code, t[2..])
        else [if Newline(t[0]) then t[0] else ' '] + Blank(InBlock, t[1..])
  }

  /** The scanner's state after the rest of the text. */
  function EndState(state: State, t: string): State
    decreases |t|
  {
    if t == [] then state
    else
      var pair := |t| > 1;
      match state
      case Code =>
        if t[0] == '"' then EndState(InString, t[1..])
        else if t[0] == '/' && pair && t[1] == '/' then EndState(InLine, t[2..])
        else if t[0] == '/' && pair && t[1] == '*' then EndState(InBlock, t[2..])
        else EndState(Code, t[1..])
      case InString =>
        if t[0] == '\\' && pair then EndState(InString, t[2..])
        else EndState(if t[0] == '"' then Code else InString, t[1..])
      case InLine => EndState(if Newline(t[0]) then Code else InLine, t[1..])
      case InBlock =>
        if t[0] == '*' && pair && t[1] == '/' then EndState(Code, t[2..]) else EndState(InBlock, t[1..])
  }

  datatype CommentError = UnterminatedBlockComment

  /** _without_verilog_comments */
  method WithoutComments(text: string) returns (r: Result<string, CommentError>)
    ensures r == if EndState(Code, text) == InBlock then Err(UnterminatedBlockComment) else Ok(Blank(Code, text))
  {
    var output: string := [];
    var index, state := 0, Code;
    while index < |text|
      invariant 0 <= index <= |text|
      invariant output + Blank(state, text[index..]) == Blank(Code, text)
      invariant EndState(state, text[index..]) == EndState(Code, text)
    {
      ghost var rest := text[index..];
      ghost var before := output;
      ghost var tail := Blank(state, rest);
      var character := text[index];
      var pair := index + 1 < |text|;
      assert rest[1..] == text[index + 1..];
      if pair { assert rest[2..] == text[index + 2..]; }
      match state {
        case Code =>
          if character == '"' {
            state := InString;
            output := output + [character];
          } else if character == '/' && pair && text[index + 1] == '/' {
            state := InLine;
            output := output + "  ";
            index := index + 1;
          } else if character == '/' && pair && text[index + 1] == '*' {
            state := InBlock;
            output := output + "  ";
            index := index + 1;
          } else {
            output := output + [character];
          }
        case InString =>
          output := output + [character];
          if character == '\\' && pair {
            output := output + [text[index + 1]];
            index := index + 1;
          } else if character == '"' {
            state := Code;
          }
        case InLine =>
          if Newline(character) {
            state := Code;
            output := output + [character];
          } else {
            output := output + [' '];
          }
        case InBlock =>
          if character == '*' && pair && text[index + 1] == '/' {
            state := Code;
            output := output + "  ";
            index := index + 1;
          } else if Newline(character) {
            output := output + [character];
          } else {
            output := output + [' '];
          }
      }
      index := index + 1;
      assert before + tail == output + Blank(state, text[index..]) by {
        AppendAssociates(before, output[|before|..], Blank(state, text[index..]));
        assert output == before + output[|before|..];
        assert tail == output[|before|..] + Blank(state, text[index..]);
      }
    }
    assert text[index..] == [];
    assert output + [] == output;
    if state == InBlock { return Err(UnterminatedBlockComment); }
    return Ok(output);
  }

  lemma AppendAssociates(a: string, b: string, c: string)
    ensures a + (b + c) == (a + b) + c
  {}

  // ------------------------------------------------------------------------------------------
  // Shape and idempotence
  // ------------------------------------------------------------------------------------------

  /** Length and newlines are kept; a character is kept or becomes a blank. */
  lemma {:induction false} BlankShape(state: State, t: string)
    ensures |Blank(state, t)| == |t|
    ensures forall i :: 0 <= i < |t| ==>
      Blank(state, t)[i] == t[i] || (Blank(state, t)[i] == ' ' && t[i] != '\r' && t[i] != '\n')
    decreases |t|
  {
    if t != [] {
      forall s: State { BlankShape(s, t[1..]); }
      if |t| > 1 { forall s: State { BlankShape(s, t[2..]); } }
    }
  }

  /** The state in which the output of a scan is read again. */
  function Again(state: State): State { if state == InString then InString else Code }

  lemma CodeHead(t: string)
    requires t != [] && t[0] != '/'
    ensures Blank(Code, t) != [] && Blank(Code, t)[0] == t[0]
  {}

  lemma {:induction false} BlankTwice(state: State, t: string)
    ensures Blank(Again(state), Blank(state, t)) == Blank(state, t)
    ensures EndState(Again(state), Blank(state, t)) in {Code, InString}
    decreases |t|
  {
    if t != [] {
      var out := Blank(state, t);
      if |t| > 1 && ((state == Code && t[0] == '/' && t[1] in {'/', '*'})
                     || (state == InString && t[0] == '\\') || (state == InBlock && t[0] == '*' && t[1] == '/')) {
        var next := if state == Code then (if t[1] == '/' then InLine else InBlock)
                    else if state == InString then InString else Code;
        BlankTwice(next, t[2..]);
        assert out[2..] == Blank(next, t[2..]);
        assert out[1..][1..] == out[2..];
      } else {
        var next := match state
          case Code => if t[0] == '"' then InString else Code
          case InString => if t[0] == '"' then Code else InString
          case InLine => if Newline(t[0]) then Code else InLine
          case InBlock => InBlock;
        BlankTwice(next, t[1..]);
        assert out[1..] == Blank(next, t[1..]);
        BlankShape(next, t[1..]);
        if state == Code && t[0] == '/' && |t| > 1 && t[1] != '/' { CodeHead(t[1..]); }
      }
    }
  }

  /** Blanking is idempotent and its output never has an open block comment. */
  lemma Idempotent(text: string)
    ensures Blank(Code, Blank(Code, text)) == Blank(Code, text)
    ensures EndState(Code, Blank(Code, text)) != InBlock
  {
    BlankTwice(Code, text);
  }

  // ------------------------------------------------------------------------------------------
  // Reference: the token grammar
  // ------------------------------------------------------------------------------------------

  /** Bodies exclude the delimiters; the two Open forms are cut off by the end of the text. */
  datatype Token =
    | Plain(c: char)
    | Literal(body: string)
    | OpenLiteral(body: string)
    | Line(body: string)
    | Block(body: string)
    | OpenBlock(body: string)

  /** Ordinary characters and backslash pairs. */
  predicate LiteralBody(b: string) {
    b == [] || (if b[0] == '\\' then |b| > 1 && LiteralBody(b[2..]) else b[0] != '"' && LiteralBody(b[1..]))
  }

  /** As above, possibly ending in a lone backslash. */
  predicate OpenLiteralBody(b: string) {
    b == [] || (if b[0] == '\\' then |b| == 1 || OpenLiteralBody(b[2..]) else b[0] != '"' && OpenLiteralBody(b[1..]))
  }

  predicate NoNewline(b: string) { forall i :: 0 <= i < |b| ==> b[i] != '\r' && b[i] != '\n' }

  /** s has no end-of-comment mark before position n. */
  predicate NoEndBefore(s: string, n: nat) {
    forall i :: 0 <= i < n && i + 1 < |s| ==> !(s[i] == '*' && s[i + 1] == '/')
  }

  /** The token can stand before `rest`. */
  predicate Fits(tok: Token, rest: string) {
    match tok
    case Plain(c) => c != '"' && !(c == '/' && rest != [] && rest[0] in {'/', '*'})
    case Literal(b) => LiteralBody(b)
    case OpenLiteral(b) => OpenLiteralBody(b) && rest == []
    case Line(b) => NoNewline(b) && (rest == [] || rest[0] == '\r' || rest[0] == '\n')
    case Block(b) => NoEndBefore(b + "*/", |b|)
    case OpenBlock(b) => NoEndBefore(b, |b|) && rest == []
  }

  function TokenText(tok: Token): string {
    match tok
    case Plain(c) => [c]
    case Literal(b) => ['"'] + (b + ['"'])
    case OpenLiteral(b) => ['"'] + b
    case Line(b) => ['/', '/'] + b
    case Block(b) => ['/', '*'] + (b + "*/")
    case OpenBlock(b) => ['/', '*'] + b
  }

  /** A comment body with everything but newlines blanked. */
  function Wiped(b: string): string { seq(|b|, i requires 0 <= i < |b| => if Newline(b[i]) then b[i] else ' ') }

  function TokenBlanked(tok: Token): string {
    match tok
    case Line(_) | Block(_) | OpenBlock(_) => Wiped(TokenText(tok))
    case _ => TokenText(tok)
  }

  function Text(tokens: seq<Token>): string {
    if tokens == [] then [] else TokenText(tokens[0]) + Text(tokens[1..])
  }

  function Blanked(tokens: seq<Token>): string {
    if tokens == [] then [] else TokenBlanked(tokens[0]) + Blanked(tokens[1..])
  }

  predicate WellFormed(tokens: seq<Token>) {
    tokens == [] || (Fits(tokens[0], Text(tokens[1..])) && WellFormed(tokens[1..]))
  }

  ghost predicate EndsOpen(tokens: seq<Token>) {
    exists i :: 0 <= i < |tokens| && tokens[i].OpenBlock?
  }

  lemma Reassociate(b: string, n: nat, q: string, tail: string)
    requires n <= |b|
    ensures b[..n] + (b[n..] + q + tail) == b + q + tail
  {}

  /** Inside a string an ordinary character or a backslash pair is copied. */
  lemma CopyInString(t: string, n: nat)
    requires n <= |t| && t != []
    requires (n == 1 && t[0] != '"' && t[0] != '\\') || (n == 2 && t[0] == '\\')
    ensures Blank(InString, t) == t[..n] + Blank(InString, t[n..])
    ensures EndState(InString, t) == EndState(InString, t[n..])
  {
    if n == 1 { assert t[..n] == [t[0]]; } else { assert t[..n] == [t[0], t[1]]; }
  }

  lemma {:induction false} ScanLiteral(b: string, rest: string)
    requires LiteralBody(b)
    ensures Blank(InString, b + ['"'] + rest) == b + ['"'] + Blank(Code, rest)
    ensures EndState(InString, b + ['"'] + rest) == EndState(Code, rest)
    decreases |b|
  {
    var t := b + ['"'] + rest;
    if b == [] {
      assert t[1..] == rest;
    } else {
      var n := if b[0] == '\\' then 2 else 1;
      ScanLiteral(b[n..], rest);
      assert t[n..] == b[n..] + ['"'] + rest && t[..n] == b[..n];
      CopyInString(t, n);
      Reassociate(b, n, ['"'], Blank(Code, rest));
    }
  }

  lemma {:induction false} ScanOpenLiteral(b: string)
    requires OpenLiteralBody(b)
    ensures Blank(InString, b) == b && EndState(InString, b) == InString
    decreases |b|
  {
    if b != [] {
      if b[0] == '\\' && |b| > 1 { ScanOpenLiteral(b[2..]); } else { ScanOpenLiteral(b[1..]); }
    }
  }

  lemma WipedStep(b: string)
    requires b != []
    ensures Wiped(b) == [if Newline(b[0]) then b[0] else ' '] + Wiped(b[1..])
  {}

  lemma {:induction false} ScanLine(b: string, rest: string)
    requires NoNewline(b) && (rest == [] || Newline(rest[0]))
    ensures Blank(InLine, b + rest) == Wiped(b) + Blank(Code, rest)
    ensures EndState(InLine, b + rest) != InBlock <==> EndState(Code, rest) != InBlock
    decreases |b|
  {
    if b == [] {
      assert b + rest == rest;
    } else {
      ScanLine(b[1..], rest);
      WipedStep(b);
      var t := b + rest;
      assert t[0] == b[0] && t[1..] == b[1..] + rest;
      assert Blank(InLine, t) == [' '] + Blank(InLine, t[1..]);
      assert EndState(InLine, t) == EndState(InLine, t[1..]);
    }
  }

  /** Dropping the first character keeps the rest free of end marks. */
  lemma NoEndTail(s: string, n: nat)
    requires 0 < n <= |s| && NoEndBefore(s, n)
    ensures NoEndBefore(s[1..], n - 1)
    ensures |s| > 1 ==> !(s[0] == '*' && s[1] == '/')
  {
    var tail := s[1..];
    forall i | 0 <= i < n - 1 && i + 1 < |tail| ensures !(tail[i] == '*' && tail[i + 1] == '/') {
      assert !(s[i + 1] == '*' && s[i + 1 + 1] == '/');
    }
    if |s| > 1 { assert !(s[0] == '*' && s[0 + 1] == '/'); }
  }

  /** Inside a block comment a character that does not end it is wiped. */
  lemma WipeInBlock(t: string)
    requires |t| > 1 && !(t[0] == '*' && t[1] == '/')
    ensures Blank(InBlock, t) == [if Newline(t[0]) then t[0] else ' '] + Blank(InBlock, t[1..])
    ensures EndState(InBlock, t) == EndState(InBlock, t[1..])
  {}

  lemma {:induction false} ScanBlock(b: string, rest: string)
    requires NoEndBefore(b + "*/", |b|)
    ensures Blank(InBlock, b + "*/" + rest) == Wiped(b) + "  " + Blank(Code, rest)
    ensures EndState(InBlock, b + "*/" + rest) == EndState(Code, rest)
    decreases |b|
  {
    var t := b + "*/" + rest;
    if b == [] {
      assert t[2..] == rest;
    } else {
      var closed := b + "*/";
      NoEndTail(closed, |b|);
      assert closed[1..] == b[1..] + "*/";
      ScanBlock(b[1..], rest);
      WipedStep(b);
      assert t[0] == closed[0] && t[1] == closed[1] && t[1..] == b[1..] + "*/" + rest;
      WipeInBlock(t);
    }
  }

  lemma {:induction false} ScanOpenBlock(b: string)
    requires NoEndBefore(b, |b|)
    ensures Blank(InBlock, b) == Wiped(b) && EndState(InBlock, b) == InBlock
    decreases |b|
  {
    if b != [] {
      NoEndTail(b, |b|);
      ScanOpenBlock(b[1..]);
      WipedStep(b);
    }
  }

  lemma WipedConcat(a: string, b: string)
    ensures Wiped(a + b) == Wiped(a) + Wiped(b)
  {}

  /** What scanning a token as a unit means. */
  ghost predicate ScansAs(tok: Token, rest: string) {
    && Blank(Code, TokenText(tok) + rest) == TokenBlanked(tok) + Blank(Code, rest)
    && (EndState(Code, TokenText(tok) + rest) == InBlock <==> tok.OpenBlock? || EndState(Code, rest) == InBlock)
  }

  lemma ScanPlain(c: char, rest: string)
    requires Fits(Plain(c), rest)
    ensures ScansAs(Plain(c), rest)
  {
    assert ([c] + rest)[1..] == rest;
  }

  lemma ScanLiteralToken(b: string, rest: string)
    requires Fits(Literal(b), rest)
    ensures ScansAs(Literal(b), rest)
  {
    var t := TokenText(Literal(b)) + rest;
    assert t[1..] == b + ['"'] + rest;
    ScanLiteral(b, rest);
    assert ['"'] + (b + ['"'] + Blank(Code, rest)) == TokenText(Literal(b)) + Blank(Code, rest);
  }

  lemma ScanOpenLiteralToken(b: string)
    requires Fits(OpenLiteral(b), [])
    ensures ScansAs(OpenLiteral(b), [])
  {
    var t := TokenText(OpenLiteral(b)) + [];
    assert t[1..] == b;
    ScanOpenLiteral(b);
  }

  lemma ScanLineToken(b: string, rest: string)
    requires Fits(Line(b), rest)
    ensures ScansAs(Line(b), rest)
  {
    var t := TokenText(Line(b)) + rest;
    assert t[2..] == b + rest;
    ScanLine(b, rest);
    WipedConcat(['/', '/'], b);
    assert Wiped(['/', '/']) == "  ";
  }

  lemma ScanBlockToken(b: string, rest: string)
    requires Fits(Block(b), rest)
    ensures ScansAs(Block(b), rest)
  {
    var t := TokenText(Block(b)) + rest;
    assert t[2..] == b + "*/" + rest;
    ScanBlock(b, rest);
    WipedConcat(['/', '*'], b + "*/");
    WipedConcat(b, "*/");
    assert Wiped(['/', '*']) == "  " && Wiped("*/") == "  ";
    assert "  " + (Wiped(b) + "  " + Blank(Code, rest)) == ("  " + (Wiped(b) + "  ")) + Blank(Code, rest);
  }

  lemma ScanOpenBlockToken(b: string)
    requires Fits(OpenBlock(b), [])
    ensures ScansAs(OpenBlock(b), [])
  {
    var t := TokenText(OpenBlock(b)) + [];
    assert t[2..] == b;
    ScanOpenBlock(b);
    WipedConcat(['/', '*'], b);
    assert Wiped(['/', '*']) == "  ";
  }

  /** One token of the grammar is scanned as a unit. */
  lemma ScanToken(tok: Token, rest: string)
    requires Fits(tok, rest)
    ensures ScansAs(tok, rest)
  {
    match tok
    case Plain(c) => ScanPlain(c, rest);
    case Literal(b) => ScanLiteralToken(b, rest);
    case OpenLiteral(b) => ScanOpenLiteralToken(b);
    case Line(b) => ScanLineToken(b, rest);
    case Block(b) => ScanBlockToken(b, rest);
    case OpenBlock(b) => ScanOpenBlockToken(b);
  }

  /**
    The scanner agrees with the grammar: code and strings are kept, comments are wiped, and only an open
    block fails.
  */
  lemma {:induction false} ScanTokens(tokens: seq<Token>)
    requires WellFormed(tokens)
    ensures Blank(Code, Text(tokens)) == Blanked(tokens)
    ensures EndState(Code, Text(tokens)) == InBlock <==> EndsOpen(tokens)
  {
    if tokens != [] {
      ScanToken(tokens[0], Text(tokens[1..]));
      ScanTokens(tokens[1..]);
      if EndsOpen(tokens[1..]) {
        var i :| 0 <= i < |tokens[1..]| && tokens[1..][i].OpenBlock?;
        assert tokens[i + 1].OpenBlock?;
      }
      if EndsOpen(tokens) && !tokens[0].OpenBlock? {
        var i :| 0 <= i < |tokens| && tokens[i].OpenBlock?;
        assert tokens[1..][i - 1].OpenBlock?;
      }
    }
  }

  lemma {:induction false} SplitLiteral(t: string) returns (b: string, rest: string, closed: bool)
    ensures if closed then t == b + ['"'] + rest && LiteralBody(b) else t == b && OpenLiteralBody(b) && rest == []
    decreases |t|
  {
    if t == [] {
      b, rest, closed := [], [], false;
    } else if t[0] == '"' {
      b, rest, closed := [], t[1..], true;
    } else if t[0] == '\\' && |t| == 1 {
      b, rest, closed := t, [], false;
    } else {
      var n := if t[0] == '\\' then 2 else 1;
      var b', rest', closed' := SplitLiteral(t[n..]);
      b, rest, closed := t[..n] + b', rest', closed';
      assert b[n..] == b';
      assert t == t[..n] + t[n..];
    }
  }

  lemma {:induction false} SplitLine(t: string) returns (b: string, rest: string)
    ensures t == b + rest && NoNewline(b) && (rest == [] || Newline(rest[0]))
    decreases |t|
  {
    if t == [] || Newline(t[0]) {
      b, rest := [], t;
    } else {
      var b', rest' := SplitLine(t[1..]);
      b, rest := [t[0]] + b', rest';
      assert t == [t[0]] + t[1..];
    }
  }

  lemma {:induction false} SplitBlock(t: string) returns (b: string, rest: string, closed: bool)
    ensures if closed then t == b + "*/" + rest && NoEndBefore(b + "*/", |b|)
            else t == b && NoEndBefore(b, |b|) && rest == []
    decreases |t|
  {
    if t == [] {
      b, rest, closed := [], [], false;
    } else if |t| > 1 && t[0] == '*' && t[1] == '/' {
      b, rest, closed := [], t[2..], true;
      assert t == "*/" + t[2..];
    } else {
      var b', rest', closed' := SplitBlock(t[1..]);
      b, rest, closed := [t[0]] + b', rest', closed';
      assert t == [t[0]] + t[1..];
      if closed {
        var whole := b + "*/";
        assert whole[1..] == b' + "*/";
        assert whole[1] == t[1];
        forall i | 0 <= i < |b| ensures !(whole[i] == '*' && whole[i + 1] == '/') {
          if i > 0 { assert !(whole[1..][i - 1] == '*' && whole[1..][i - 1 + 1] == '/'); }
        }
      } else {
        forall i | 0 <= i < |b| && i + 1 < |b| ensures !(b[i] == '*' && b[i + 1] == '/') {
          if i > 0 { assert !(b'[i - 1] == '*' && b'[i - 1 + 1] == '/'); }
        }
      }
    }
  }

  lemma FirstLiteral(t: string) returns (tok: Token, rest: string)
    requires t != [] && t[0] == '"'
    ensures t == TokenText(tok) + rest && Fits(tok, rest)
  {
    var b, rest', closed := SplitLiteral(t[1..]);
    assert t == ['"'] + t[1..];
    if closed {
      tok, rest := Literal(b), rest';
      AppendAssociates(['"'], b + ['"'], rest);
    } else {
      tok, rest := OpenLiteral(b), rest';
      assert TokenText(tok) + [] == TokenText(tok);
    }
  }

  lemma FirstLine(t: string) returns (tok: Token, rest: string)
    requires |t| > 1 && t[0] == t[1] == '/'
    ensures t == TokenText(tok) + rest && Fits(tok, rest)
  {
    var b, rest' := SplitLine(t[2..]);
    tok, rest := Line(b), rest';
    assert t == ['/', '/'] + t[2..];
    AppendAssociates(['/', '/'], b, rest);
  }

  lemma FirstBlock(t: string) returns (tok: Token, rest: string)
    requires |t| > 1 && t[0] == '/' && t[1] == '*'
    ensures t == TokenText(tok) + rest && Fits(tok, rest)
  {
    var b, rest', closed := SplitBlock(t[2..]);
    assert t == ['/', '*'] + t[2..];
    if closed {
      tok, rest := Block(b), rest';
      AppendAssociates(['/', '*'], b + "*/", rest);
    } else {
      tok, rest := OpenBlock(b), rest';
      assert TokenText(tok) + [] == TokenText(tok);
    }
  }

  lemma FirstToken(t: string) returns (tok: Token, rest: string)
    requires t != []
    ensures t == TokenText(tok) + rest && Fits(tok, rest)
  {
    if t[0] == '"' {
      tok, rest := FirstLiteral(t);
    } else if t[0] == '/' && |t| > 1 && t[1] == '/' {
      tok, rest := FirstLine(t);
    } else if t[0] == '/' && |t| > 1 && t[1] == '*' {
      tok, rest := FirstBlock(t);
    } else {
      tok, rest := Plain(t[0]), t[1..];
    }
  }

  /** Every text has a token sequence, so the agreement covers every input. */
  lemma {:induction false} Segment(t: string) returns (tokens: seq<Token>)
    ensures WellFormed(tokens) && Text(tokens) == t
    decreases |t|
  {
    if t == [] {
      tokens := [];
    } else {
      var tok, rest := FirstToken(t);
      assert |TokenText(tok)| > 0;
      var tail := Segment(rest);
      tokens := [tok] + tail;
      assert tokens[1..] == tail;
    }
  }
}
