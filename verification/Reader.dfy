/** `decodeParameterJSON`: the bounded reader on top of the token decoder, and exactly what it accepts. */
module Reader {
  import opened Options
  import opened Decimal
  import opened Numbers
  import opened Exactness
  import opened JsonTree
  import opened Grammar
  import opened Decoder

  const MAX_RAW: nat := 64 * 1024

  /** A `json.RawMessage`: its size in bytes, whether blanks surround its lexemes, and the lexemes. */
  datatype RawMessage = RawMessage(size: nat, padded: bool, lexemes: seq<Lexeme>)

  datatype Parsed = Fail | Done(value: Json, rest: seq<Lexeme>)

  function Outcome(p: Parsed): Option<Json> {
    if p.Done? then Some(p.value) else None
  }

  // ---- the reader as a function of the lexemes ahead ----

  function ReadValue(ls: seq<Lexeme>, depth: nat): (p: Parsed)
    ensures p.Done? ==> |p.rest| < |ls|
    decreases |ls|, 0
  {
    if depth > MAX_DEPTH || ls == [] then Fail else ReadFrom(ls[0], ls[1..], depth)
  }

  /** The value whose first lexeme is `l`. */
  function ReadFrom(l: Lexeme, rest: seq<Lexeme>, depth: nat): (p: Parsed)
    ensures p.Done? ==> |p.rest| <= |rest|
    decreases |rest|, 3
  {
    match l
    case LBrace => ReadMembers(rest, depth, map[])
    case LBracket => ReadElements(rest, depth, [])
    case Num(n) => if Accepted(n) then Done(Number(n), rest) else Fail
    case RBrace | RBracket | Colon | Comma | Junk => Fail
    case _ => Done(ScalarValue(l), rest)
  }

  /** Members up to the closing brace, added to those in `acc`; only the first needs no comma before it. */
  function ReadMembers(ls: seq<Lexeme>, depth: nat, acc: map<string, Json>): (p: Parsed)
    ensures p.Done? ==> |p.rest| < |ls|
    decreases |ls|, 0
  {
    if ls != [] && ls[0] == RBrace then Done(Object(acc), ls[1..])
    else
      var ms := if acc == map[] then Some(ls) else After(Comma, ls);
      if ms.None? || ms.value == [] || !ms.value[0].Str? || ms.value[0].s in acc then Fail
      else
        var vs := After(Colon, ms.value[1..]);
        if vs.None? then Fail
        else
          match ReadValue(vs.value, depth + 1)
          case Fail => Fail
          case Done(v, rest) => ReadMembers(rest, depth, acc[ms.value[0].s := v])
  }

  function ReadElements(ls: seq<Lexeme>, depth: nat, acc: seq<Json>): (p: Parsed)
    ensures p.Done? ==> |p.rest| < |ls|
    decreases |ls|, 2
  {
    if ls != [] && ls[0] == RBracket then Done(Array(acc), ls[1..])
    else
      var vs := if acc == [] then Some(ls) else After(Comma, ls);
      if vs.None? then Fail
      else
        match ReadValue(vs.value, depth + 1)
        case Fail => Fail
        case Done(v, rest) => ReadElements(rest, depth, acc + [v])
  }

  /** What follows the separator `l`, if it comes next. */
  function After(l: Lexeme, ls: seq<Lexeme>): (r: Option<seq<Lexeme>>)
    ensures r.Some? ==> |r.value| < |ls|
  {
    if ls != [] && ls[0] == l then Some(ls[1..]) else None
  }

  function Decode(raw: RawMessage): Option<Json> {
    if raw.size == 0 || raw.size > MAX_RAW then None
    else
      match ReadValue(raw.lexemes, 0)
      case Done(v, rest) => if rest == [] then Some(v) else None
      case Fail => None
  }

  // ---- the reader as a program over the decoder ----

  /** In these states `Token` skips the separator before a value, if one is due, and then reads the value. */
  predicate BeforeValue(state: TokenState) {
    state in {TopValue, ArrayStart, ArrayComma, ObjectColon}
  }

  function AfterValue(state: TokenState): TokenState {
    match state
    case ArrayStart | ArrayComma => ArrayComma
    case ObjectColon => ObjectComma
    case _ => state
  }

  /** The lexemes of the value ahead. */
  function ValueAhead(ls: seq<Lexeme>, state: TokenState): (r: Option<seq<Lexeme>>)
    ensures r.Some? ==> |r.value| <= |ls|
  {
    match state
    case ArrayComma => After(Comma, ls)
    case ObjectColon => After(Colon, ls)
    case _ => Some(ls)
  }

  function ReadNext(ls: seq<Lexeme>, state: TokenState, depth: nat): (p: Parsed)
    ensures p.Done? ==> |p.rest| < |ls|
  {
    var vs := ValueAhead(ls, state);
    if vs.None? then Fail else ReadValue(vs.value, depth)
  }

  predicate StartsValue(l: Lexeme) {
    !(l.RBrace? || l.RBracket? || l.Colon? || l.Comma? || l.Junk?)
  }

  lemma NoValue(ls: seq<Lexeme>, depth: nat)
    requires ls != [] ==> !StartsValue(ls[0])
    ensures ReadValue(ls, depth).Fail?
  {
  }

  /** The state to be resumed after a container, pushed when it is opened. */
  function Resumed(state: TokenState): TokenState {
    match state
    case ArrayComma => ArrayValue
    case ObjectColon => ObjectValue
    case _ => state
  }

  lemma ReopenClose(state: TokenState, stack: seq<TokenState>)
    requires BeforeValue(state)
    ensures Close(stack + [Resumed(state)]) == Emit(AfterValue(state), stack)
  {
    assert (stack + [Resumed(state)])[..|stack|] == stack;
  }

  /** The token read in a state that allows a value. */
  lemma TokenNow(ls: seq<Lexeme>, state: TokenState, stack: seq<TokenState>)
    requires ValueAllowed(state) && Balanced(state, stack)
    ensures var t := NextToken(ls, state, stack);
            if ls != [] && StartsValue(ls[0]) then
              t == Step(Got(ls[0]), ls[1..],
                        if ls[0].LBrace? then ObjectStart else if ls[0].LBracket? then ArrayStart else ValueEnd(state),
                        if ls[0].LBrace? || ls[0].LBracket? then stack + [state] else stack)
            else
              t.result.Got? ==> !StartsValue(t.result.token)
  {
    if ls != [] && !StartsValue(ls[0]) {
      assert !MoveOn(ls[0], state, stack).Pass?;
    }
  }

  /** The token read in a state that asks for a separator first. */
  lemma TokenAfterSeparator(ls: seq<Lexeme>, state: TokenState, stack: seq<TokenState>)
    requires state in {ArrayComma, ObjectColon} && Balanced(state, stack)
    ensures var t := NextToken(ls, state, stack);
            if ValueAhead(ls, state).Some? then t == NextToken(ls[1..], Resumed(state), stack)
            else t.result.Got? ==> !StartsValue(t.result.token)
  {
    if ls != [] {
      var move := MoveOn(ls[0], state, stack);
      assert ValueAhead(ls, state).Some? ==> move == Pass(Resumed(state));
      assert ValueAhead(ls, state).None? ==> !move.Pass? && (move.Emit? ==> !StartsValue(ls[0]));
    }
  }

  /** The token read where a value is due: the first lexeme of the value, or nothing a value can start with. */
  lemma ValueToken(ls: seq<Lexeme>, state: TokenState, stack: seq<TokenState>)
    requires BeforeValue(state) && Balanced(state, stack)
    ensures var t, vs := NextToken(ls, state, stack), ValueAhead(ls, state);
            if vs.Some? && vs.value != [] && StartsValue(vs.value[0]) then
              var l := vs.value[0];
              t == Step(Got(l), vs.value[1..],
                        if l.LBrace? then ObjectStart else if l.LBracket? then ArrayStart else AfterValue(state),
                        if l.LBrace? || l.LBracket? then stack + [Resumed(state)] else stack)
            else
              t.result.Got? ==> !StartsValue(t.result.token)
  {
    if ValueAllowed(state) {
      TokenNow(ls, state, stack);
    } else {
      TokenAfterSeparator(ls, state, stack);
      if ValueAhead(ls, state).Some? {
        TokenNow(ls[1..], Resumed(state), stack);
      }
    }
  }

  /** The token read where a key or the end is due, against the first steps of `ReadMembers`. */
  lemma KeyToken(ls: seq<Lexeme>, first: bool, stack: seq<TokenState>)
    requires stack != [] && stack[0] == TopValue
    ensures var t := NextToken(ls, if first then ObjectStart else ObjectComma, stack);
            var ms := if first then Some(ls) else After(Comma, ls);
            && (t.result == Got(RBrace) <==> ls != [] && ls[0] == RBrace)
            && (t.result == Got(RBrace) ==> t.rest == ls[1..] && Close(stack) == Emit(t.state, t.stack))
            && (t.result.Got? && t.result.token.Str? <==> ms.Some? && ms.value != [] && ms.value[0].Str?)
            && (t.result.Got? && t.result.token.Str? ==>
                  t == Step(Got(ms.value[0]), ms.value[1..], ObjectColon, stack))
  {
  }

  /** One member is read: its key stands in `ms[0]`, its value is the next one after a colon. */
  lemma MembersStep(ls: seq<Lexeme>, depth: nat, acc: map<string, Json>)
    requires ls != [] ==> ls[0] != RBrace
    ensures var ms := if acc == map[] then Some(ls) else After(Comma, ls);
            if ms.None? || ms.value == [] || !ms.value[0].Str? || ms.value[0].s in acc then
              ReadMembers(ls, depth, acc).Fail?
            else
              var p := ReadNext(ms.value[1..], ObjectColon, depth + 1);
              ReadMembers(ls, depth, acc)
              == if p.Fail? then Fail else ReadMembers(p.rest, depth, acc[ms.value[0].s := p.value])
  {
  }

  /** The case of a number: its length, and its exponent as `strconv.Atoi` reads it. */
  method NumberWithinBounds(n: NumberText) returns (ok: bool)
    ensures ok <==> Accepted(n)
  {
    if |n| > 128 {
      return false;
    }
    ExponentText(n);
    var i := IndexAny(n, {'e', 'E'});
    if i < |n| {
      var exponent := n[i + 1..];
      AcceptedText(n, true, exponent);
      ok := ExponentWithinBounds(exponent);
    } else {
      AcceptedText(n, false, "");
      ok := true;
    }
  }

  predicate ExponentWithin(e: string)
    requires IsSigned(e)
  {
    Atoi(e).1 && -128 <= Atoi(e).0 <= 128
  }

  method ExponentWithinBounds(e: string) returns (ok: bool)
    requires IsSigned(e)
    ensures ok <==> ExponentWithin(e)
  {
    var (exponent, parsed) := Atoi(e);
    return parsed && !(exponent < -128 || exponent > 128);
  }

  lemma AcceptedText(n: NumberText, marked: bool, e: string)
    requires Split(n).marked == marked && (marked ==> Split(n).exponent == e)
    ensures marked ==> IsSigned(e)
    ensures Accepted(n) <==> |n| <= 128 && (marked ==> ExponentWithin(e))
  {
  }

  method ReadParameterValue(d: Decoder, depth: nat) returns (r: Option<Json>)
    requires d.Valid() && BeforeValue(d.tokenState)
    modifies d
    ensures d.Valid()
    ensures r == Outcome(ReadNext(old(d.Rest()), old(d.tokenState), depth))
    ensures r.Some? ==> d.Rest() == ReadNext(old(d.Rest()), old(d.tokenState), depth).rest
    ensures r.Some? ==> d.tokenState == AfterValue(old(d.tokenState)) && d.tokenStack == old(d.tokenStack)
    decreases |d.Rest()|, 0
  {
    if depth > MAX_DEPTH {
      return None;
    }
    ghost var vs := ValueAhead(d.Rest(), d.tokenState);
    ValueToken(d.Rest(), d.tokenState, d.tokenStack);
    var token := d.Token();
    if !token.Got? || !StartsValue(token.token) {
      if vs.Some? {
        NoValue(vs.value, depth);
      }
      return None;
    }
    var l := token.token;
    assert vs.Some? && vs.value[0] == l && vs.value[1..] == d.Rest();
    ReopenClose(old(d.tokenState), old(d.tokenStack));
    r := ReadFromToken(d, l, depth);
  }

  /** The switch on the first token of a value. */
  method ReadFromToken(d: Decoder, l: Lexeme, depth: nat) returns (r: Option<Json>)
    requires d.Valid() && StartsValue(l)
    requires l.LBrace? ==> d.tokenState == ObjectStart && d.tokenStack != []
    requires l.LBracket? ==> d.tokenState == ArrayStart && d.tokenStack != []
    modifies d
    ensures d.Valid()
    ensures r == Outcome(ReadFrom(l, old(d.Rest()), depth))
    ensures r.Some? ==> d.Rest() == ReadFrom(l, old(d.Rest()), depth).rest
    ensures r.Some? ==>
        if l.LBrace? || l.LBracket? then Close(old(d.tokenStack)) == Emit(d.tokenState, d.tokenStack)
        else d.tokenState == old(d.tokenState) && d.tokenStack == old(d.tokenStack)
    decreases |d.Rest()|, 2
  {
    if l.LBrace? {
      r := ReadObject(d, depth);
    } else if l.LBracket? {
      r := ReadArray(d, depth);
    } else if l.Num? {
      var ok := NumberWithinBounds(l.n);
      r := if ok then Some(Number(l.n)) else None;
    } else {
      r := Some(ScalarValue(l));
    }
  }

  /** One round of the loop over members: a key that is new, a colon and a value. */
  method ReadMember(d: Decoder, depth: nat, fields: map<string, Json>) returns (r: Option<map<string, Json>>)
    requires d.Valid() && d.tokenState == (if fields == map[] then ObjectStart else ObjectComma) && d.tokenStack != []
    requires d.Rest() != [] && d.Rest()[0] != RBrace
    modifies d
    ensures d.Valid()
    ensures r.None? ==> ReadMembers(old(d.Rest()), depth, fields).Fail?
    ensures r.Some? ==> ReadMembers(old(d.Rest()), depth, fields) == ReadMembers(d.Rest(), depth, r.value)
    ensures r.Some? ==> r.value != map[] && |d.Rest()| < old(|d.Rest()|)
    ensures r.Some? ==> d.tokenState == ObjectComma && d.tokenStack == old(d.tokenStack)
    decreases |d.Rest()|, 0
  {
    KeyToken(d.Rest(), fields == map[], d.tokenStack);
    MembersStep(d.Rest(), depth, fields);
    var key := d.Token();
    if !key.Got? || !key.token.Str? {
      return None;
    }
    var name := key.token.s;
    if name in fields {
      return None;
    }
    var value := ReadParameterValue(d, depth + 1);
    if value.None? {
      return None;
    }
    assert name in fields[name := value.value];
    return Some(fields[name := value.value]);
  }

  /** The case '{': members are collected in a map until the closing brace. */
  method ReadObject(d: Decoder, depth: nat) returns (r: Option<Json>)
    requires d.Valid() && d.tokenState == ObjectStart && d.tokenStack != []
    modifies d
    ensures d.Valid()
    ensures r == Outcome(ReadMembers(old(d.Rest()), depth, map[]))
    ensures r.Some? ==> d.Rest() == ReadMembers(old(d.Rest()), depth, map[]).rest
    ensures r.Some? ==> Close(old(d.tokenStack)) == Emit(d.tokenState, d.tokenStack)
    decreases |d.Rest()|, 1
  {
    ghost var goal := ReadMembers(d.Rest(), depth, map[]);
    var fields: map<string, Json> := map[];
    var more := d.More();
    while more
      invariant d.Valid() && d.tokenStack == old(d.tokenStack) && |d.Rest()| <= old(|d.Rest()|)
      invariant d.tokenState == if fields == map[] then ObjectStart else ObjectComma
      invariant more <==> d.Rest() != [] && d.Rest()[0] !in {RBracket, RBrace}
      invariant ReadMembers(d.Rest(), depth, fields) == goal
      decreases |d.Rest()|
    {
      var extended := ReadMember(d, depth, fields);
      if extended.None? {
        return None;
      }
      fields := extended.value;
      more := d.More();
    }
    KeyToken(d.Rest(), fields == map[], d.tokenStack);
    var end := d.Token();
    if end != Got(RBrace) {
      return None;
    }
    return Some(Object(fields));
  }

  /** One element is read, after a comma unless it is the first. */
  lemma ElementsStep(ls: seq<Lexeme>, depth: nat, acc: seq<Json>)
    requires ls != [] ==> ls[0] != RBracket
    ensures var p := ReadNext(ls, if acc == [] then ArrayStart else ArrayComma, depth + 1);
            ReadElements(ls, depth, acc) == if p.Fail? then Fail else ReadElements(p.rest, depth, acc + [p.value])
  {
  }

  /** The token read where an element or the end is due, if it is the end. */
  lemma EndToken(ls: seq<Lexeme>, first: bool, stack: seq<TokenState>)
    requires stack != [] && stack[0] == TopValue
    requires ls == [] || ls[0] in {RBracket, RBrace}
    ensures var t := NextToken(ls, if first then ArrayStart else ArrayComma, stack);
            && (t.result == Got(RBracket) <==> ls != [] && ls[0] == RBracket)
            && (t.result == Got(RBracket) ==> t.rest == ls[1..] && Close(stack) == Emit(t.state, t.stack))
  {
  }

  lemma NoElement(ls: seq<Lexeme>, depth: nat, acc: seq<Json>)
    requires ls == [] || ls[0] == RBrace
    ensures ReadElements(ls, depth, acc).Fail?
  {
    NoValue(ls, depth + 1);
  }

  /** The case '[': elements are appended until the closing bracket. */
  method ReadArray(d: Decoder, depth: nat) returns (r: Option<Json>)
    requires d.Valid() && d.tokenState == ArrayStart && d.tokenStack != []
    modifies d
    ensures d.Valid()
    ensures r == Outcome(ReadElements(old(d.Rest()), depth, []))
    ensures r.Some? ==> d.Rest() == ReadElements(old(d.Rest()), depth, []).rest
    ensures r.Some? ==> Close(old(d.tokenStack)) == Emit(d.tokenState, d.tokenStack)
    decreases |d.Rest()|, 1
  {
    ghost var goal := ReadElements(d.Rest(), depth, []);
    var items: seq<Json> := [];
    var more := d.More();
    while more
      invariant d.Valid() && d.tokenStack == old(d.tokenStack) && |d.Rest()| <= old(|d.Rest()|)
      invariant d.tokenState == if items == [] then ArrayStart else ArrayComma
      invariant more <==> d.Rest() != [] && d.Rest()[0] !in {RBracket, RBrace}
      invariant ReadElements(d.Rest(), depth, items) == goal
      decreases |d.Rest()|
    {
      ElementsStep(d.Rest(), depth, items);
      var value := ReadParameterValue(d, depth + 1);
      if value.None? {
        return None;
      }
      items := items + [value.value];
      more := d.More();
    }
    EndToken(d.Rest(), items == [], d.tokenStack);
    if d.Rest() == [] || d.Rest()[0] == RBrace {
      NoElement(d.Rest(), depth, items);
    }
    var end := d.Token();
    if end != Got(RBracket) {
      return None;
    }
    return Some(Array(items));
  }

  method DecodeParameterJSON(raw: RawMessage) returns (r: Option<Json>)
    ensures r == Decode(raw)
  {
    if raw.size == 0 || raw.size > MAX_RAW {
      return None;
    }
    var d := new Decoder(raw.lexemes);
    var value := ReadParameterValue(d, 0);
    if value.None? {
      return None;
    }
    var trailing := d.Token();
    if trailing != Eof {
      return None;
    }
    return value;
  }

  /** A minus sign hides nothing from the search for the exponent. */
  lemma ExponentText(s: string)
    ensures var i := IndexAny(s, {'e', 'E'});
            Split(s).marked == (i < |s|) && (i < |s| ==> Split(s).exponent == s[i + 1..])
  {
    if s != "" && s[0] == '-' {
      var i := IndexAny(s[1..], {'e', 'E'});
      IndexAfterFirst(s, {'e', 'E'}, i);
      ExponentUnsigned(s[1..], i);
    } else {
      ExponentUnsigned(s, IndexAny(s, {'e', 'E'}));
    }
  }

  lemma ExponentUnsigned(u: string, i: nat)
    requires i == IndexAny(u, {'e', 'E'})
    ensures SplitUnsigned(u).marked == (i < |u|) && (i < |u| ==> SplitUnsigned(u).exponent == u[i + 1..])
  {
  }

  lemma IndexAfterFirst(s: string, chars: set<char>, i: nat)
    requires s != "" && s[0] !in chars && i == IndexAny(s[1..], chars)
    ensures IndexAny(s, chars) == i + 1
    ensures i < |s| - 1 ==> s[1..][i + 1..] == s[i + 2..]
  {
    IndexAnyIs(s, chars, i + 1);
  }
}
