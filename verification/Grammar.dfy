/** JSON texts as sequences of lexemes (RFC 8259, sections 2 to 5), and the trees they denote. */
module Grammar {
  import opened Numbers
  import opened Exactness
  import opened JsonTree

  datatype Lexeme =
    | LBrace | RBrace | LBracket | RBracket | Colon | Comma
    | Str(s: string) | Num(n: NumberText) | True | False | Nil
    | Junk  // characters that begin no JSON token

  type Scalar = l: Lexeme | l.Str? || l.Num? || l.True? || l.False? || l.Nil? witness Nil

  /** One way to write a value: members of an object stand in the order of the text and may repeat a key. */
  datatype Syntax = Leaf(token: Scalar) | ObjectText(members: seq<Member>) | ArrayText(items: seq<Syntax>)

  datatype Member = Member(key: string, value: Syntax)

  function ScalarValue(l: Scalar): Json {
    match l
    case Str(s) => Text(s)
    case Num(n) => Number(n)
    case True => Bool(true)
    case False => Bool(false)
    case Nil => Null
  }

  // ---- the text of a syntax tree ----

  function Flatten(c: Syntax): (ls: seq<Lexeme>)
    ensures ls != []
    decreases c
  {
    match c
    case Leaf(token) => [token]
    case ObjectText(members) => [LBrace] + FlattenMembers(members, true) + [RBrace]
    case ArrayText(items) => [LBracket] + FlattenItems(items, true) + [RBracket]
  }

  function FlattenMembers(ms: seq<Member>, first: bool): seq<Lexeme>
    decreases ms
  {
    if ms == [] then []
    else
      Separator(first) + [Str(ms[0].key), Colon] + Flatten(ms[0].value) + FlattenMembers(ms[1..], false)
  }

  function FlattenItems(xs: seq<Syntax>, first: bool): seq<Lexeme>
    decreases xs
  {
    if xs == [] then [] else Separator(first) + Flatten(xs[0]) + FlattenItems(xs[1..], false)
  }

  function Separator(first: bool): seq<Lexeme> {
    if first then [] else [Comma]
  }

  // ---- the value of a syntax tree ----

  function Denote(c: Syntax): Json
    decreases c
  {
    match c
    case Leaf(token) => ScalarValue(token)
    case ObjectText(members) => Object(DenoteMembers(members, map[]))
    case ArrayText(items) => Array(DenoteItems(items))
  }

  function DenoteMembers(ms: seq<Member>, acc: map<string, Json>): map<string, Json>
    decreases ms
  {
    if ms == [] then acc else DenoteMembers(ms[1..], acc[ms[0].key := Denote(ms[0].value)])
  }

  function DenoteItems(xs: seq<Syntax>): (vs: seq<Json>)
    ensures |vs| == |xs|
    decreases xs
  {
    if xs == [] then [] else [Denote(xs[0])] + DenoteItems(xs[1..])
  }

  // ---- the restrictions on top of the grammar ----

  const MAX_DEPTH: nat := 16

  predicate DistinctKeys(ms: seq<Member>) {
    forall i, j | 0 <= i < j < |ms| :: ms[i].key != ms[j].key
  }

  /** Placed at `depth`: no value lies deeper than 16, no object repeats a key, every number is within bounds. */
  predicate WellFormed(c: Syntax, depth: nat)
    decreases c
  {
    && depth <= MAX_DEPTH
    && match c
       case Leaf(token) => token.Num? ==> Accepted(token.n)
       case ObjectText(members) =>
         DistinctKeys(members) && forall i | 0 <= i < |members| :: WellFormed(members[i].value, depth + 1)
       case ArrayText(items) => forall i | 0 <= i < |items| :: WellFormed(items[i], depth + 1)
  }

  // ---- texts determine syntax trees ----

  /** The text of a value is self-delimiting: equal texts with arbitrary continuations have equal trees. */
  lemma {:induction false} FlattenInjective(a: Syntax, b: Syntax, r: seq<Lexeme>, s: seq<Lexeme>)
    requires Flatten(a) + r == Flatten(b) + s
    ensures a == b && r == s
    decreases a
  {
    FlattenFirst(a, r);
    FlattenFirst(b, s);
    match a
    case Leaf(token) =>
      Cancel([token], r, s);
    case ObjectText(ms) =>
      Enclose([LBrace], FlattenMembers(ms, true), [RBrace], r);
      Enclose([LBrace], FlattenMembers(b.members, true), [RBrace], s);
      Cancel([LBrace], FlattenMembers(ms, true) + [RBrace] + r, FlattenMembers(b.members, true) + [RBrace] + s);
      MembersInjective(ms, b.members, true, r, s);
    case ArrayText(xs) =>
      Enclose([LBracket], FlattenItems(xs, true), [RBracket], r);
      Enclose([LBracket], FlattenItems(b.items, true), [RBracket], s);
      Cancel([LBracket], FlattenItems(xs, true) + [RBracket] + r, FlattenItems(b.items, true) + [RBracket] + s);
      ItemsInjective(xs, b.items, true, r, s);
  }

  lemma FlattenFirst(c: Syntax, r: seq<Lexeme>)
    ensures (Flatten(c) + r)[0]
         == if c.Leaf? then c.token else if c.ObjectText? then LBrace else LBracket
  {
  }

  lemma {:induction false} MembersInjective(
      ms: seq<Member>, ns: seq<Member>, first: bool, r: seq<Lexeme>, s: seq<Lexeme>)
    requires FlattenMembers(ms, first) + [RBrace] + r == FlattenMembers(ns, first) + [RBrace] + s
    ensures ms == ns && r == s
    decreases ms
  {
    MembersHead(ms, first, r);
    MembersHead(ns, first, s);
    if ms == [] {
      Cancel([RBrace], r, s);
    } else {
      MembersJoin(first, ms, r);
      MembersJoin(first, ns, s);
      var k, l := Str(ms[0].key), Str(ns[0].key);
      Cancel(Separator(first), [k, Colon] + FirstValue(ms, r), [l, Colon] + FirstValue(ns, s));
      CancelPair(k, l, Colon, FirstValue(ms, r), FirstValue(ns, s));
      FlattenInjective(ms[0].value, ns[0].value, AfterFirst(ms, r), AfterFirst(ns, s));
      MembersInjective(ms[1..], ns[1..], false, r, s);
      assert ms == [ms[0]] + ms[1..] && ns == [ns[0]] + ns[1..];
    }
  }

  lemma Cancel<T>(a: seq<T>, p: seq<T>, q: seq<T>)
    requires a + p == a + q
    ensures p == q
  {
    assert p == (a + p)[|a|..] && q == (a + q)[|a|..];
  }

  lemma CancelPair<T>(x: T, y: T, z: T, p: seq<T>, q: seq<T>)
    requires [x, z] + p == [y, z] + q
    ensures x == y && p == q
  {
    assert x == ([x, z] + p)[0] && y == ([y, z] + q)[0];
    Cancel([x, z], p, q);
  }

  /** What follows the first key and colon. */
  function FirstValue(ms: seq<Member>, r: seq<Lexeme>): seq<Lexeme>
    requires ms != []
  {
    Flatten(ms[0].value) + AfterFirst(ms, r)
  }

  function AfterFirst(ms: seq<Member>, r: seq<Lexeme>): seq<Lexeme>
    requires ms != []
  {
    FlattenMembers(ms[1..], false) + [RBrace] + r
  }

  lemma MembersJoin(first: bool, ms: seq<Member>, r: seq<Lexeme>)
    requires ms != []
    ensures FlattenMembers(ms, first) + [RBrace] + r
         == Separator(first) + ([Str(ms[0].key), Colon] + FirstValue(ms, r))
  {
    var a, b := Separator(first), [Str(ms[0].key), Colon];
    Regroup(a, b, Flatten(ms[0].value), FlattenMembers(ms[1..], false), [RBrace], r);
  }

  lemma MembersSplit(ms: seq<Member>, first: bool, r: seq<Lexeme>)
    requires ms != []
    ensures var x, k := FlattenMembers(ms, first) + [RBrace] + r, |Separator(first)|;
            k + 2 <= |x| && x[..k] == Separator(first) && x[k] == Str(ms[0].key) && x[k + 1] == Colon
            && x[k + 2..] == FirstValue(ms, r)
  {
    var a, b := Separator(first), [Str(ms[0].key), Colon];
    Regroup(a, b, Flatten(ms[0].value), FlattenMembers(ms[1..], false), [RBrace], r);
    Prefixes(a, b, FirstValue(ms, r));
  }

  lemma Enclose<T>(a: seq<T>, b: seq<T>, c: seq<T>, r: seq<T>)
    ensures a + (b + c + r) == a + b + c + r
  {
  }

  lemma Regroup<T>(a: seq<T>, b: seq<T>, c: seq<T>, d: seq<T>, e: seq<T>, r: seq<T>)
    ensures a + b + c + d + e + r == a + b + (c + (d + e + r))
  {
  }

  lemma Prefixes<T>(a: seq<T>, b: seq<T>, p: seq<T>)
    requires |b| == 2
    ensures var x, k := a + b + p, |a|;
            x[..k] == a && x[k] == b[0] && x[k + 1] == b[1] && x[k + 2..] == p
  {
  }

  lemma MembersHead(ms: seq<Member>, first: bool, r: seq<Lexeme>)
    ensures (FlattenMembers(ms, first) + [RBrace] + r)[0] == RBrace <==> ms == []
    ensures ms == [] ==> FlattenMembers(ms, first) + [RBrace] + r == [RBrace] + r
  {
    if ms == [] {
      assert [] + [RBrace] == [RBrace];
    } else {
      MembersSplit(ms, first, r);
    }
  }

  lemma {:induction false} ItemsInjective(
      xs: seq<Syntax>, ys: seq<Syntax>, first: bool, r: seq<Lexeme>, s: seq<Lexeme>)
    requires FlattenItems(xs, first) + [RBracket] + r == FlattenItems(ys, first) + [RBracket] + s
    ensures xs == ys && r == s
    decreases xs
  {
    ItemsHead(xs, first, r);
    ItemsHead(ys, first, s);
    if xs == [] {
      Cancel([RBracket], r, s);
    } else {
      ItemsSplit(xs, first, r);
      ItemsSplit(ys, first, s);
      Cancel(Separator(first), FirstItem(xs, r), FirstItem(ys, s));
      FlattenInjective(xs[0], ys[0], AfterFirstItem(xs, r), AfterFirstItem(ys, s));
      ItemsInjective(xs[1..], ys[1..], false, r, s);
      assert xs == [xs[0]] + xs[1..] && ys == [ys[0]] + ys[1..];
    }
  }

  /** The first element and what follows it. */
  function FirstItem(xs: seq<Syntax>, r: seq<Lexeme>): seq<Lexeme>
    requires xs != []
  {
    Flatten(xs[0]) + AfterFirstItem(xs, r)
  }

  function AfterFirstItem(xs: seq<Syntax>, r: seq<Lexeme>): seq<Lexeme>
    requires xs != []
  {
    FlattenItems(xs[1..], false) + [RBracket] + r
  }

  lemma ItemsSplit(xs: seq<Syntax>, first: bool, r: seq<Lexeme>)
    requires xs != []
    ensures FlattenItems(xs, first) + [RBracket] + r == Separator(first) + FirstItem(xs, r)
  {
    Regroup([], Separator(first), Flatten(xs[0]), FlattenItems(xs[1..], false), [RBracket], r);
    assert [] + Separator(first) == Separator(first);
  }

  lemma ItemsHead(xs: seq<Syntax>, first: bool, r: seq<Lexeme>)
    ensures (FlattenItems(xs, first) + [RBracket] + r)[0] == RBracket <==> xs == []
    ensures xs == [] ==> FlattenItems(xs, first) + [RBracket] + r == [RBracket] + r
  {
    if xs == [] {
      assert [] + [RBracket] == [RBracket];
    } else {
      ItemsSplit(xs, first, r);
      FlattenHead(xs[0]);
    }
  }

  lemma FlattenHead(c: Syntax)
    ensures Flatten(c)[0] !in {RBrace, RBracket, Comma, Colon, Junk}
  {
  }
}
