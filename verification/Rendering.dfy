/** The characters `json.Marshal` writes for lexemes, and that they are a JSON text of these lexemes. */
module Rendering {
  import opened Options
  import opened Decimal
  import opened Numbers
  import opened Grammar
  import opened Lexing

  const HEX := "0123456789abcdef"

  /** The encoder escapes quotes, backslashes, control characters, HTML characters and two line separators. */
  function EscapeChar(c: char): (s: string)
    ensures s != "" && s[0] != '"'
  {
    if c == '"' then "\\\""
    else if c == '\\' then "\\\\"
    else if c == '\U{8}' then "\\b"
    else if c == '\U{C}' then "\\f"
    else if c == '\n' then "\\n"
    else if c == '\r' then "\\r"
    else if c == '\t' then "\\t"
    else if c < ' ' || c in {'<', '>', '&'} then "\\u00" + [HEX[c as int / 16], HEX[c as int % 16]]
    else if c == '\U{2028}' then "\\u2028"
    else if c == '\U{2029}' then "\\u2029"
    else [c]
  }

  function Escape(s: string): string {
    if s == "" then "" else EscapeChar(s[0]) + Escape(s[1..])
  }

  function Render(l: Lexeme): string {
    match l
    case LBrace => "{"
    case RBrace => "}"
    case LBracket => "["
    case RBracket => "]"
    case Colon => ":"
    case Comma => ","
    case Str(s) => "\"" + (Escape(s) + "\"")
    case Num(n) => n
    case True => "true"
    case False => "false"
    case Nil => "null"
    case Junk => "?"
  }

  function RenderAll(ls: seq<Lexeme>): string {
    if ls == [] then "" else Render(ls[0]) + RenderAll(ls[1..])
  }

  // ---- strings are read back ----

  /** What follows the backslash of a two-character escape. */
  predicate Short(c: char) {
    c in {'"', '\\', '\U{8}', '\U{C}', '\n', '\r', '\t'}
  }

  /** Written as a hexadecimal escape. */
  predicate Hexed(c: char) {
    (c < ' ' && !Short(c)) || c in {'<', '>', '&', '\U{2028}', '\U{2029}'}
  }

  lemma HexDigit(d: int)
    requires 0 <= d < 16
    ensures HexValue(HEX[d]) == Some(d) && !('A' <= HEX[d] <= 'F')
  {
  }

  /** How an escape looks: itself, two characters, or a backslash, a 'u' and four digits, none of them a capital. */
  lemma EscapeShape(c: char)
    ensures !Short(c) && !Hexed(c) ==> EscapeChar(c) == [c]
    ensures Short(c) ==> |EscapeChar(c)| == 2
    ensures Hexed(c) ==> |EscapeChar(c)| == 6 && forall i | 0 <= i < 6 :: !('A' <= EscapeChar(c)[i] <= 'Z')
  {
    if c < ' ' || c in {'<', '>', '&'} {
      HexDigit(c as int / 16);
      HexDigit(c as int % 16);
    }
  }

  lemma HexedRead(c: char, x: string)
    requires Hexed(c)
    ensures ScanChar(EscapeChar(c) + x) == Scanned(c, x)
  {
    var s := EscapeChar(c) + x;
    assert s[1..][1..][4..] == x;
    if c < ' ' || c in {'<', '>', '&'} {
      HexDigit(c as int / 16);
      HexDigit(c as int % 16);
      assert s[1..][1..][2] == HEX[c as int / 16] && s[1..][1..][3] == HEX[c as int % 16];
    }
    assert s[1..][1..][0] == EscapeChar(c)[2] && s[1..][1..][1] == EscapeChar(c)[3];
    assert s[1..][1..][2] == EscapeChar(c)[4] && s[1..][1..][3] == EscapeChar(c)[5];
  }

  lemma CharRead(c: char, x: string)
    ensures ScanChar(EscapeChar(c) + x) == Scanned(c, x)
  {
    var s := EscapeChar(c) + x;
    if Hexed(c) {
      HexedRead(c, x);
    } else if Short(c) {
      assert s[0] == '\\' && s[1] == EscapeChar(c)[1] && s[1..][1..] == x;
    } else {
      assert s[0] == c && s[1..] == x;
    }
  }

  lemma EscapeHead(a: string, x: string)
    ensures (Escape(a) + "\"" + x)[0] == '"' <==> a == ""
    ensures a != "" ==> Escape(a) + "\"" + x == EscapeChar(a[0]) + (Escape(a[1..]) + "\"" + x)
  {
    if a != "" {
      FirstPiece(EscapeChar(a[0]), Escape(a[1..]), x);
    }
  }

  lemma FirstPiece(head: string, tail: string, x: string)
    requires head != ""
    ensures head + tail + "\"" + x == head + (tail + "\"" + x)
    ensures (head + tail + "\"" + x)[0] == head[0]
  {
  }

  lemma {:induction false} CharsRead(a: string, x: string)
    ensures ScanChars(Escape(a) + "\"" + x) == Scanned(a, x)
  {
    var s := Escape(a) + "\"" + x;
    EscapeHead(a, x);
    if a == "" {
      assert s[1..] == x;
    } else {
      CharRead(a[0], Escape(a[1..]) + "\"" + x);
      CharsRead(a[1..], x);
      assert [a[0]] + a[1..] == a;
    }
  }

  // ---- lexemes are read back ----

  lemma NumberHead(n: NumberText)
    ensures n != "" && (n[0] == '-' || IsDigit(n[0]))
  {
    if !Split(n).negative {
      assert n[0] == Split(n).whole[0];
    }
  }

  lemma NumberRead(n: NumberText, rest: string)
    requires rest != "" ==> rest[0] in {',', '}', ']'}
    ensures ScanLexeme(n + rest) == Scanned(Num(n), rest)
  {
    NumberHead(n);
    NumberScanned(n + rest);
    DigitsScanned(n, rest);
  }

  lemma NumberScanned(s: string)
    requires s != "" && (s[0] == '-' || IsDigit(s[0]))
    ensures ScanLexeme(s) == ScanNumber(s)
  {
  }

  lemma DigitsScanned(n: NumberText, rest: string)
    requires rest != "" ==> rest[0] in {',', '}', ']'}
    ensures ScanNumber(n + rest) == Scanned(Num(n), rest)
  {
    NumberIffCompletes(n);
    RunReadsAll(Start, n, rest);
    TakeDrop(n, rest);
  }

  lemma TakeDrop(a: string, b: string)
    ensures (a + b)[..|a|] == a && (a + b)[|a|..] == b
  {
  }

  lemma StringRead(a: string, rest: string)
    ensures ScanLexeme(Render(Str(a)) + rest) == Scanned(Str(a), rest)
  {
    var s := Render(Str(a)) + rest;
    assert s[0] == '"' && s[1..] == Escape(a) + "\"" + rest;
    CharsRead(a, rest);
  }

  lemma WordRead(word: string, l: Lexeme, rest: string)
    requires word != ""
    ensures ScanWord(word + rest, word, l) == Scanned(l, rest)
  {
  }

  lemma LexemeRead(l: Lexeme, rest: string)
    requires l != Junk && (l.Num? && rest != "" ==> rest[0] in {',', '}', ']'})
    ensures Render(l) != "" && ScanLexeme(Render(l) + rest) == Scanned(l, rest) && !IsBlank(Render(l)[0])
  {
    if l.Num? {
      NumberHead(l.n);
      NumberRead(l.n, rest);
    } else if l.Str? {
      StringRead(l.s, rest);
    } else if l.True? || l.False? || l.Nil? {
      WordRead(Render(l), l, rest);
    } else {
      assert (Render(l) + rest)[1..] == rest;
    }
  }

  /** No junk, and after every number comes a comma, a closing bracket or the end. */
  predicate Spaced(ls: seq<Lexeme>) {
    && (forall i | 0 <= i < |ls| :: ls[i] != Junk)
    && forall i | 0 <= i < |ls| - 1 :: ls[i].Num? ==> ls[i + 1] in {Comma, RBrace, RBracket}
  }

  /** What is written for spaced lexemes is read as these lexemes. */
  lemma {:induction false} LexRendered(ls: seq<Lexeme>)
    requires Spaced(ls)
    ensures Lex(RenderAll(ls)) == Some(ls)
  {
    if ls == [] {
    } else {
      var rest := RenderAll(ls[1..]);
      if ls[0].Num? && rest != "" {
        assert rest[0] == Render(ls[1])[0];
      }
      LexemeRead(ls[0], rest);
      LexRendered(ls[1..]);
      assert [ls[0]] + ls[1..] == ls;
    }
  }

  // ---- texts are spaced ----

  predicate Closed(r: seq<Lexeme>) {
    Spaced(r) && (r != [] ==> r[0] in {Comma, RBrace, RBracket})
  }

  lemma Prepend(l: Lexeme, r: seq<Lexeme>)
    requires Spaced(r) && l != Junk && (l.Num? ==> Closed(r))
    ensures Spaced([l] + r)
  {
  }

  lemma {:induction false} FlattenSpaced(c: Syntax, r: seq<Lexeme>)
    requires Closed(r)
    ensures Spaced(Flatten(c) + r)
    decreases c
  {
    match c
    case Leaf(token) => Prepend(token, r);
    case ObjectText(ms) =>
      MembersSpaced(ms, true, r);
      Prepend(LBrace, FlattenMembers(ms, true) + [RBrace] + r);
      Enclose([LBrace], FlattenMembers(ms, true), [RBrace], r);
    case ArrayText(xs) =>
      ItemsSpaced(xs, true, r);
      Prepend(LBracket, FlattenItems(xs, true) + [RBracket] + r);
      Enclose([LBracket], FlattenItems(xs, true), [RBracket], r);
  }

  lemma {:induction false} MembersSpaced(ms: seq<Member>, first: bool, r: seq<Lexeme>)
    requires Closed(r)
    ensures Spaced(FlattenMembers(ms, first) + [RBrace] + r)
    ensures !first ==> Closed(FlattenMembers(ms, first) + [RBrace] + r)
    decreases ms
  {
    var ls := FlattenMembers(ms, first) + [RBrace] + r;
    if ms == [] {
      Prepend(RBrace, r);
      assert ls == [RBrace] + r;
    } else {
      MembersSpaced(ms[1..], false, r);
      FlattenSpaced(ms[0].value, FlattenMembers(ms[1..], false) + [RBrace] + r);
      MembersJoin(first, ms, r);
      MemberSpaced(first, ms[0].key, FirstValue(ms, r));
    }
  }

  lemma MemberSpaced(first: bool, key: string, v: seq<Lexeme>)
    requires Spaced(v)
    ensures Spaced(Separator(first) + ([Str(key), Colon] + v))
    ensures !first ==> Closed(Separator(first) + ([Str(key), Colon] + v))
  {
    var s := [Str(key)] + ([Colon] + v);
    Prepend(Colon, v);
    Prepend(Str(key), [Colon] + v);
    Prepend(Comma, s);
    assert [Str(key), Colon] + v == s && [] + s == s;
  }

  lemma {:induction false} ItemsSpaced(xs: seq<Syntax>, first: bool, r: seq<Lexeme>)
    requires Closed(r)
    ensures Spaced(FlattenItems(xs, first) + [RBracket] + r)
    ensures !first ==> Closed(FlattenItems(xs, first) + [RBracket] + r)
    decreases xs
  {
    var ls := FlattenItems(xs, first) + [RBracket] + r;
    if xs == [] {
      Prepend(RBracket, r);
      assert ls == [RBracket] + r;
    } else {
      ItemsSpaced(xs[1..], false, r);
      FlattenSpaced(xs[0], FlattenItems(xs[1..], false) + [RBracket] + r);
      Prepend(Comma, FirstItem(xs, r));
      ItemsSplit(xs, first, r);
      assert ls == Separator(first) + FirstItem(xs, r);
    }
  }

  // ---- main results ----

  function Written(c: Syntax): string {
    RenderAll(Flatten(c))
  }

  /** The characters written for a syntax tree are a JSON text of exactly its lexemes. */
  lemma LexWritten(c: Syntax)
    ensures Lex(Written(c)) == Some(Flatten(c))
  {
    FlattenSpaced(c, []);
    assert Flatten(c) + [] == Flatten(c);
    LexRendered(Flatten(c));
  }

  /** The characters written for a syntax tree determine it. */
  lemma WrittenInjective(a: Syntax, b: Syntax)
    ensures Written(a) == Written(b) <==> a == b
  {
    if Written(a) == Written(b) {
      LexWritten(a);
      LexWritten(b);
      FlattenInjective(a, b, [], []);
    }
  }
}
