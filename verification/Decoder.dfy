/** The token decoder of `encoding/json`: a cursor over the input, a state and a stack of states. */
module Decoder {
  import opened Grammar
  import opened Options

  datatype TokenState =
    | TopValue | ArrayStart | ArrayValue | ArrayComma
    | ObjectStart | ObjectKey | ObjectColon | ObjectValue | ObjectComma

  /** What `Token` returns: a token, `io.EOF`, or a syntax error. */
  datatype Result = Got(token: Lexeme) | Eof | Bad

  /** The result of `Token` with the input left over and the states after it. */
  datatype Step = Step(result: Result, rest: seq<Lexeme>, state: TokenState, stack: seq<TokenState>)

  predicate ValueAllowed(state: TokenState) {
    state in {TopValue, ArrayStart, ArrayValue, ObjectValue}
  }

  /** `tokenValueEnd`. */
  function ValueEnd(state: TokenState): TokenState {
    match state
    case ArrayStart | ArrayValue => ArrayComma
    case ObjectValue => ObjectComma
    case _ => state
  }

  predicate Balanced(state: TokenState, stack: seq<TokenState>) {
    if stack == [] then state == TopValue else stack[0] == TopValue
  }

  /** What one lexeme does: it is returned, skipped as the separator that was due, or refused. */
  datatype Move = Emit(state: TokenState, stack: seq<TokenState>) | Pass(state: TokenState) | Refuse

  function MoveOn(l: Lexeme, state: TokenState, stack: seq<TokenState>): (m: Move)
    requires Balanced(state, stack)
    ensures m.Emit? ==> Balanced(m.state, m.stack)
    ensures m.Pass? ==> Balanced(m.state, stack)
  {
    match l
    case LBracket => if ValueAllowed(state) then Emit(ArrayStart, stack + [state]) else Refuse
    case LBrace => if ValueAllowed(state) then Emit(ObjectStart, stack + [state]) else Refuse
    case RBracket => if state in {ArrayStart, ArrayComma} then Close(stack) else Refuse
    case RBrace => if state in {ObjectStart, ObjectComma} then Close(stack) else Refuse
    case Colon => if state == ObjectColon then Pass(ObjectValue) else Refuse
    case Comma =>
      if state == ArrayComma then Pass(ArrayValue)
      else if state == ObjectComma then Pass(ObjectKey)
      else Refuse
    case Junk => Refuse
    case _ =>
      if l.Str? && state in {ObjectStart, ObjectKey} then Emit(ObjectColon, stack)
      else if ValueAllowed(state) then Emit(ValueEnd(state), stack)
      else Refuse
  }

  function Close(stack: seq<TokenState>): Move
    requires stack != []
  {
    Emit(ValueEnd(stack[|stack| - 1]), stack[..|stack| - 1])
  }

  /** One call of `Token`. */
  function NextToken(rest: seq<Lexeme>, state: TokenState, stack: seq<TokenState>): (r: Step)
    requires Balanced(state, stack)
    ensures Balanced(r.state, r.stack)
    ensures r.result.Got? ==> |r.rest| < |rest|
    decreases rest
  {
    if rest == [] then Step(Eof, rest, state, stack)
    else
      match MoveOn(rest[0], state, stack)
      case Emit(next, nextStack) => Step(Got(rest[0]), rest[1..], next, nextStack)
      case Pass(next) => NextToken(rest[1..], next, stack)
      case Refuse => Step(Bad, rest, state, stack)
  }

  class Decoder {
    const input: seq<Lexeme>
    var scanp: nat
    var tokenState: TokenState
    var tokenStack: seq<TokenState>

    ghost predicate Valid()
      reads this
    {
      scanp <= |input| && Balanced(tokenState, tokenStack)
    }

    ghost function Rest(): seq<Lexeme>
      reads this
      requires Valid()
    {
      input[scanp..]
    }

    constructor (input: seq<Lexeme>)
      ensures Valid() && Rest() == input && tokenState == TopValue && tokenStack == []
    {
      this.input := input;
      scanp, tokenState, tokenStack := 0, TopValue, [];
    }

    /** Is there another element before the end of the current array or object? */
    method More() returns (more: bool)
      requires Valid()
      ensures more <==> Rest() != [] && Rest()[0] !in {RBracket, RBrace}
    {
      more := scanp < |input| && input[scanp] !in {RBracket, RBrace};
    }

    /** One round of the loop in `Token`: `None` after a separator that was due. */
    method Round() returns (r: Option<Result>)
      requires Valid()
      modifies this
      ensures Valid()
      ensures old(Rest()) == [] ==> r == Some(Eof) && Rest() == [] && Kept()
      ensures old(Rest()) != [] ==>
          var l, tail := old(Rest())[0], old(Rest())[1..];
          match MoveOn(l, old(tokenState), old(tokenStack))
          case Emit(state, stack) => r == Some(Got(l)) && Rest() == tail && tokenState == state && tokenStack == stack
          case Pass(state) => r == None && Rest() == tail && tokenState == state && tokenStack == old(tokenStack)
          case Refuse => r == Some(Bad) && Rest() == old(Rest()) && Kept()
    {
      if scanp == |input| {
        return Some(Eof);
      }
      var l := input[scanp];
      assert Rest()[0] == l && Rest()[1..] == input[scanp + 1..];
      if l == LBracket || l == LBrace {
        if !ValueAllowed(tokenState) {
          return Some(Bad);
        }
        tokenStack := tokenStack + [tokenState];
        tokenState := if l == LBracket then ArrayStart else ObjectStart;
      } else if l == RBracket || l == RBrace {
        if tokenState !in (if l == RBracket then {ArrayStart, ArrayComma} else {ObjectStart, ObjectComma}) {
          return Some(Bad);
        }
        tokenState := ValueEnd(tokenStack[|tokenStack| - 1]);
        tokenStack := tokenStack[..|tokenStack| - 1];
      } else if l == Colon || l == Comma {
        if tokenState !in (if l == Colon then {ObjectColon} else {ArrayComma, ObjectComma}) {
          return Some(Bad);
        }
        tokenState := if l == Colon then ObjectValue else if tokenState == ArrayComma then ArrayValue else ObjectKey;
        scanp := scanp + 1;
        return None;
      } else if l.Str? && tokenState in {ObjectStart, ObjectKey} {
        tokenState := ObjectColon;
      } else if l == Junk || !ValueAllowed(tokenState) {
        return Some(Bad);
      } else {
        tokenState := ValueEnd(tokenState);
      }
      scanp := scanp + 1;
      return Some(Got(l));
    }

    twostate predicate Kept()
      reads this
    {
      tokenState == old(tokenState) && tokenStack == old(tokenStack)
    }

    method Token() returns (r: Result)
      requires Valid()
      modifies this
      ensures Valid()
      ensures NextToken(old(Rest()), old(tokenState), old(tokenStack)) == Step(r, Rest(), tokenState, tokenStack)
    {
      ghost var goal := NextToken(Rest(), tokenState, tokenStack);
      while true
        invariant Valid()
        invariant NextToken(Rest(), tokenState, tokenStack) == goal
        decreases |Rest()|
      {
        var found := Round();
        if found.Some? {
          return found.value;
        }
      }
    }
  }
}
