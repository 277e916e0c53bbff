/** JSON texts as characters: lexemes read according to RFC 8259, sections 2, 3, 6 and 7. */
module Lexing {
  import opened Options
  import opened Decimal
  import opened Numbers
  import opened Grammar

  /** Something read from the front of a text, and the text behind it. */
  datatype Scan<+T> = Failed | Scanned(value: T, rest: string)

  // ---- numbers (section 6), one character at a time ----

  datatype NumberState = Start | Minus | Zero | Whole | Point | Places | Mark | Sign | Exponent

  function NextState(state: NumberState, c: char): Option<NumberState> {
    match state
    case Start => if c == '-' then Some(Minus) else AfterMinus(c)
    case Minus => AfterMinus(c)
    case Zero => AfterWhole(c)
    case Whole => if '0' <= c <= '9' then Some(Whole) else AfterWhole(c)
    case Point => if '0' <= c <= '9' then Some(Places) else None
    case Places => if '0' <= c <= '9' then Some(Places) else if c == 'e' || c == 'E' then Some(Mark) else None
    case Mark => if c == '+' || c == '-' then Some(Sign) else if '0' <= c <= '9' then Some(Exponent) else None
    case Sign => if '0' <= c <= '9' then Some(Exponent) else None
    case Exponent => if '0' <= c <= '9' then Some(Exponent) else None
  }

  function AfterMinus(c: char): Option<NumberState> {
    if c == '0' then Some(Zero) else if '1' <= c <= '9' then Some(Whole) else None
  }

  function AfterWhole(c: char): Option<NumberState> {
    if c == '.' then Some(Point) else if c == 'e' || c == 'E' then Some(Mark) else None
  }

  predicate MayEnd(state: NumberState) {
    state in {Zero, Whole, Places, Exponent}
  }

  /** All of `s` is read, in a state in which a number may end. */
  predicate Completes(state: NumberState, s: string)
    decreases |s|
  {
    if s == "" then MayEnd(state) else NextState(state, s[0]).Some? && Completes(NextState(state, s[0]).value, s[1..])
  }

  /** How many characters can be read, and the state after them. */
  function Run(state: NumberState, s: string): (r: (nat, NumberState))
    ensures r.0 <= |s|
    decreases |s|
  {
    if s == "" || NextState(state, s[0]).None? then (0, state)
    else
      var (n, end) := Run(NextState(state, s[0]).value, s[1..]);
      (n + 1, end)
  }

  lemma {:induction false} RunCompletes(state: NumberState, s: string)
    ensures MayEnd(Run(state, s).1) ==> Completes(state, s[..Run(state, s).0])
    decreases |s|
  {
    if s == "" || NextState(state, s[0]).None? {
    } else {
      var next := NextState(state, s[0]).value;
      RunCompletes(next, s[1..]);
      var n := Run(next, s[1..]).0;
      assert s[..n + 1][1..] == s[1..][..n];
    }
  }

  /** A complete number is read to its end when what follows cannot belong to a number. */
  lemma {:induction false} RunReadsAll(state: NumberState, s: string, rest: string)
    requires Completes(state, s) && (rest != "" ==> rest[0] in {',', '}', ']'})
    ensures Run(state, s + rest).0 == |s| && MayEnd(Run(state, s + rest).1)
    decreases |s|
  {
    if s == "" {
      assert s + rest == rest;
    } else {
      RunReadsAll(NextState(state, s[0]).value, s[1..], rest);
      assert (s + rest)[1..] == s[1..] + rest;
    }
  }

  // ---- the grammar of numbers ----

  /** What may follow the whole part: an exponent. */
  predicate GoodExponent(s: string, k: nat)
    requires k <= |s|
  {
    k < |s| ==> IsSigned(s[k + 1..])
  }

  lemma {:induction false} FromExponent(s: string)
    ensures Completes(Exponent, s) <==> AllDigits(s)
    ensures Completes(Sign, s) <==> AllDigits(s) && s != ""
  {
    if s == "" {
    } else {
      FromExponent(s[1..]);
      DigitsCons(s);
    }
  }

  lemma DigitsCons(s: string)
    requires s != ""
    ensures AllDigits(s) <==> IsDigit(s[0]) && AllDigits(s[1..])
  {
    if IsDigit(s[0]) && AllDigits(s[1..]) {
      forall i | 0 <= i < |s| ensures IsDigit(s[i]) {
        assert i > 0 ==> s[i] == s[1..][i - 1];
      }
    }
  }

  lemma FromMark(s: string)
    ensures Completes(Mark, s) <==> IsSigned(s)
  {
    if s != "" {
      FromExponent(s[1..]);
      DigitsCons(s);
    }
  }

  lemma IndexCons(s: string, chars: set<char>)
    requires s != "" && s[0] !in chars
    ensures IndexAny(s, chars) == IndexAny(s[1..], chars) + 1
    ensures var k := IndexAny(s[1..], chars);
            s[..k + 1] == [s[0]] + s[1..][..k] && s[k + 1..] == s[1..][k..]
            && (k + 1 < |s| ==> s[k + 2..] == s[1..][k + 1..])
  {
  }

  lemma {:induction false} FromPlaces(s: string)
    ensures var k := IndexAny(s, {'e', 'E'}); Completes(Places, s) <==> AllDigits(s[..k]) && GoodExponent(s, k)
  {
    var k := IndexAny(s, {'e', 'E'});
    if s == "" {
    } else if k == 0 {
      FromMark(s[1..]);
    } else {
      FromPlaces(s[1..]);
      IndexCons(s, {'e', 'E'});
      DigitsCons(s[..k]);
    }
  }

  lemma FromPoint(s: string)
    ensures var k := IndexAny(s, {'e', 'E'});
            Completes(Point, s) <==> k > 0 && AllDigits(s[..k]) && GoodExponent(s, k)
  {
    var k := IndexAny(s, {'e', 'E'});
    if k > 0 {
      FromPlaces(s[1..]);
      IndexCons(s, {'e', 'E'});
      DigitsCons(s[..k]);
    }
  }

  /** The productions for the pieces, except that the digits of the whole part may be any. */
  predicate GoodTail(p: Parts) {
    && AllDigits(p.whole) && AllDigits(p.fraction) && (p.dotted ==> p.fraction != "")
    && (p.marked ==> IsSigned(p.exponent))
  }

  lemma SplitCons(u: string)
    requires u != "" && u[0] !in {'e', 'E', '.'}
    ensures SplitUnsigned(u) == SplitUnsigned(u[1..]).(whole := [u[0]] + SplitUnsigned(u[1..]).whole)
  {
    var v := u[1..];
    var k := IndexAny(v, {'e', 'E'});
    IndexCons(u, {'e', 'E'});
    var m, n := u[..k + 1], v[..k];
    assert m[1..] == n;
    IndexCons(m, {'.'});
  }

  lemma SplitAtPoint(u: string)
    requires u != "" && u[0] == '.'
    ensures var k := IndexAny(u[1..], {'e', 'E'});
            SplitUnsigned(u) == Parts(false, "", true, u[1..][..k], k < |u| - 1, if k < |u| - 1 then u[k + 2..] else "")
  {
    IndexCons(u, {'e', 'E'});
    var k := IndexAny(u[1..], {'e', 'E'});
    assert u[..k + 1][1..] == u[1..][..k];
  }

  lemma {:induction false} FromWhole(u: string)
    ensures Completes(Whole, u) <==> GoodTail(SplitUnsigned(u))
    ensures Completes(Zero, u) <==> GoodTail(SplitUnsigned(u)) && SplitUnsigned(u).whole == ""
  {
    if u == "" {
    } else if u[0] == '.' {
      SplitAtPoint(u);
      FromPoint(u[1..]);
    } else if u[0] in {'e', 'E'} {
      FromMark(u[1..]);
    } else {
      SplitCons(u);
      FromWhole(u[1..]);
      DigitsCons(SplitUnsigned(u).whole);
    }
  }

  lemma FromMinus(u: string)
    ensures Completes(Minus, u) <==> GoodParts(SplitUnsigned(u))
  {
    if u == "" || u[0] in {'e', 'E', '.'} {
    } else {
      SplitCons(u);
      FromWhole(u[1..]);
      DigitsCons(SplitUnsigned(u).whole);
    }
  }

  /** The productions of section 6 for the pieces of a text are the same language. */
  lemma NumberIffCompletes(s: string)
    ensures IsNumber(s) <==> Completes(Start, s)
  {
    if s != "" && s[0] == '-' {
      FromMinus(s[1..]);
    } else {
      FromMinus(s);
    }
  }

  function ScanNumber(s: string): (r: Scan<Lexeme>)
    ensures r.Scanned? ==> |r.rest| < |s|
  {
    var (n, end) := Run(Start, s);
    if !MayEnd(end) then Failed
    else
      RunCompletes(Start, s);
      NumberIffCompletes(s[..n]);
      Scanned(Num(s[..n]), s[n..])
  }

  // ---- strings (section 7) ----

  function HexValue(c: char): Option<nat> {
    if '0' <= c <= '9' then Some(c as int - '0' as int)
    else if 'a' <= c <= 'f' then Some(c as int - 'a' as int + 10)
    else if 'A' <= c <= 'F' then Some(c as int - 'A' as int + 10)
    else None
  }

  /** Four hexadecimal digits for a character; surrogates, which the encoder never writes, are not read. */
  function ScanHex(s: string): (r: Scan<char>)
    ensures r.Scanned? ==> |r.rest| < |s|
  {
    if |s| < 4 then Failed
    else
      var a, b, c, d := HexValue(s[0]), HexValue(s[1]), HexValue(s[2]), HexValue(s[3]);
      if a.None? || b.None? || c.None? || d.None? then Failed
      else
        var n := ((a.value * 16 + b.value) * 16 + c.value) * 16 + d.value;
        if n >= 0x1_0000 || 0xD800 <= n < 0xE000 then Failed else Scanned(n as char, s[4..])
  }

  /** What may follow a backslash. */
  function ScanEscape(s: string): (r: Scan<char>)
    ensures r.Scanned? ==> |r.rest| < |s|
  {
    if s == "" then Failed
    else
      match s[0]
      case '"' => Scanned('"', s[1..])
      case '\\' => Scanned('\\', s[1..])
      case '/' => Scanned('/', s[1..])
      case 'b' => Scanned('\U{8}', s[1..])
      case 'f' => Scanned('\U{C}', s[1..])
      case 'n' => Scanned('\U{A}', s[1..])
      case 'r' => Scanned('\U{D}', s[1..])
      case 't' => Scanned('\U{9}', s[1..])
      case 'u' => ScanHex(s[1..])
      case _ => Failed
  }

  function ScanChar(s: string): (r: Scan<char>)
    requires s != ""
    ensures r.Scanned? ==> |r.rest| < |s|
  {
    if s[0] == '\\' then ScanEscape(s[1..]) else if s[0] < ' ' then Failed else Scanned(s[0], s[1..])
  }

  /** The characters of a string, up to the closing quote. */
  function ScanChars(s: string): (r: Scan<string>)
    ensures r.Scanned? ==> |r.rest| < |s|
    decreases |s|
  {
    if s == "" then Failed
    else if s[0] == '"' then Scanned("", s[1..])
    else
      match ScanChar(s)
      case Failed => Failed
      case Scanned(c, more) =>
        match ScanChars(more)
        case Failed => Failed
        case Scanned(cs, rest) => Scanned([c] + cs, rest)
  }

  // ---- lexemes (sections 2 and 3) ----

  function ScanWord(s: string, word: string, l: Lexeme): (r: Scan<Lexeme>)
    requires word != ""
    ensures r.Scanned? ==> |r.rest| < |s|
  {
    if word <= s then Scanned(l, s[|word|..]) else Failed
  }

  function ScanLexeme(s: string): (r: Scan<Lexeme>)
    requires s != ""
    ensures r.Scanned? ==> |r.rest| < |s|
  {
    if s[0] == '-' || IsDigit(s[0]) then ScanNumber(s)
    else
      match s[0]
      case '{' => Scanned(LBrace, s[1..])
      case '}' => Scanned(RBrace, s[1..])
      case '[' => Scanned(LBracket, s[1..])
      case ']' => Scanned(RBracket, s[1..])
      case ':' => Scanned(Colon, s[1..])
      case ',' => Scanned(Comma, s[1..])
      case 't' => ScanWord(s, "true", True)
      case 'f' => ScanWord(s, "false", False)
      case 'n' => ScanWord(s, "null", Nil)
      case '"' => (match ScanChars(s[1..])
                   case Failed => Failed
                   case Scanned(cs, rest) => Scanned(Str(cs), rest))
      case _ => Failed
  }

  predicate IsBlank(c: char) {
    c == ' ' || c == '\t' || c == '\n' || c == '\r'
  }

  /** The lexemes of a text, blanks between them left out. */
  function Lex(s: string): Option<seq<Lexeme>>
    decreases |s|
  {
    if s == "" then Some([])
    else if IsBlank(s[0]) then Lex(s[1..])
    else
      match ScanLexeme(s)
      case Failed => None
      case Scanned(l, rest) =>
        match Lex(rest)
        case None => None
        case Some(ls) => Some([l] + ls)
  }
}
