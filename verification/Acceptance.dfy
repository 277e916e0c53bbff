/** What the bounded reader accepts, stated on syntax trees. */
module Acceptance {
  import opened Options
  import opened JsonTree
  import opened Grammar
  import opened Reader

  /** Members that can follow those in `acc`: well formed at `depth`, with new and distinct keys. */
  predicate FreshMembers(ms: seq<Member>, acc: map<string, Json>, depth: nat) {
    DistinctKeys(ms) && forall i | 0 <= i < |ms| :: ms[i].key !in acc && WellFormed(ms[i].value, depth)
  }

  // ---- every well-formed text is read ----

  lemma {:induction false} ReadComplete(c: Syntax, depth: nat, rest: seq<Lexeme>)
    requires WellFormed(c, depth)
    ensures ReadValue(Flatten(c) + rest, depth) == Done(Denote(c), rest)
    decreases c
  {
    var ls := Flatten(c) + rest;
    match c
    case Leaf(token) =>
      assert ls[1..] == rest;
    case ObjectText(ms) =>
      assert ls[1..] == FlattenMembers(ms, true) + [RBrace] + rest;
      MembersComplete(ms, depth, map[], rest);
    case ArrayText(xs) =>
      assert ls[1..] == FlattenItems(xs, true) + [RBracket] + rest;
      ItemsComplete(xs, depth, [], rest);
      assert [] + DenoteItems(xs) == DenoteItems(xs);
  }

  lemma {:induction false} MembersComplete(
      ms: seq<Member>, depth: nat, acc: map<string, Json>, rest: seq<Lexeme>)
    requires FreshMembers(ms, acc, depth + 1)
    ensures ReadMembers(FlattenMembers(ms, acc == map[]) + [RBrace] + rest, depth, acc)
         == Done(Object(DenoteMembers(ms, acc)), rest)
    decreases ms
  {
    var ls := FlattenMembers(ms, acc == map[]) + [RBrace] + rest;
    if ms == [] {
      assert ls[1..] == rest;
    } else {
      var key, value := ms[0].key, ms[0].value;
      var ahead := FlattenMembers(ms[1..], false) + [RBrace] + rest;
      MembersSplit(ms, acc == map[], rest);
      ReadComplete(value, depth + 1, ahead);
      MembersComplete(ms[1..], depth, acc[key := Denote(value)], rest);
      assert acc[key := Denote(value)] != map[] by {
        assert key in acc[key := Denote(value)];
      }
      assert ReadMembers(ls, depth, acc) == ReadMembers(ahead, depth, acc[key := Denote(value)]) by {
        MemberRead(ls, depth, acc, key, FirstValue(ms, rest), Denote(value), ahead);
      }
    }
  }

  lemma MemberRead(
      ls: seq<Lexeme>, depth: nat, acc: map<string, Json>, key: string, vs: seq<Lexeme>, v: Json, ahead: seq<Lexeme>)
    requires var k := |Separator(acc == map[])|;
             k + 2 <= |ls| && ls[..k] == Separator(acc == map[]) && ls[k] == Str(key) && ls[k + 1] == Colon
             && ls[k + 2..] == vs
    requires key !in acc && ReadValue(vs, depth + 1) == Done(v, ahead)
    ensures ReadMembers(ls, depth, acc) == ReadMembers(ahead, depth, acc[key := v])
  {
    if acc != map[] {
      assert ls[0] == ls[..1][0] == Comma;
      assert ls[1..][2..] == vs && ls[1..][1..][1..] == vs;
    } else {
      assert ls[1..][1..] == vs;
    }
  }

  lemma {:induction false} ItemsComplete(xs: seq<Syntax>, depth: nat, acc: seq<Json>, rest: seq<Lexeme>)
    requires forall i | 0 <= i < |xs| :: WellFormed(xs[i], depth + 1)
    ensures ReadElements(FlattenItems(xs, acc == []) + [RBracket] + rest, depth, acc)
         == Done(Array(acc + DenoteItems(xs)), rest)
    decreases xs
  {
    var ls := FlattenItems(xs, acc == []) + [RBracket] + rest;
    ItemsHead(xs, acc == [], rest);
    if xs == [] {
      assert ls[1..] == rest;
      assert acc + DenoteItems(xs) == acc;
    } else {
      var ahead, v := FlattenItems(xs[1..], false) + [RBracket] + rest, Denote(xs[0]);
      ItemsSplit(xs, acc == [], rest);
      ReadComplete(xs[0], depth + 1, ahead);
      ElementRead(ls, depth, acc, Flatten(xs[0]) + ahead, v, ahead);
      ItemsComplete(xs[1..], depth, acc + [v], rest);
      Append(acc, v, DenoteItems(xs[1..]));
    }
  }

  lemma ElementRead(ls: seq<Lexeme>, depth: nat, acc: seq<Json>, vs: seq<Lexeme>, v: Json, ahead: seq<Lexeme>)
    requires ls == Separator(acc == []) + vs && ls != [] && ls[0] != RBracket
    requires ReadValue(vs, depth + 1) == Done(v, ahead)
    ensures ReadElements(ls, depth, acc) == ReadElements(ahead, depth, acc + [v])
  {
    assert if acc == [] then ls == vs else ls[1..] == vs;
  }

  lemma Append<T>(a: seq<T>, x: T, b: seq<T>)
    ensures a + ([x] + b) == a + [x] + b
  {
  }

  // ---- everything that is read is a well-formed text ----

  lemma {:induction false} ReadSound(ls: seq<Lexeme>, depth: nat) returns (c: Syntax)
    requires ReadValue(ls, depth).Done?
    ensures WellFormed(c, depth)
    ensures ls == Flatten(c) + ReadValue(ls, depth).rest
    ensures ReadValue(ls, depth).value == Denote(c)
    decreases |ls|, 0
  {
    assert ls == [ls[0]] + ls[1..];
    if ls[0].LBrace? {
      var ms := MembersSound(ls[1..], depth, map[]);
      c := ObjectText(ms);
      Enclose([LBrace], FlattenMembers(ms, true), [RBrace], ReadValue(ls, depth).rest);
    } else if ls[0].LBracket? {
      var xs := ItemsSound(ls[1..], depth, []);
      c := ArrayText(xs);
      Enclose([LBracket], FlattenItems(xs, true), [RBracket], ReadValue(ls, depth).rest);
      assert [] + DenoteItems(xs) == DenoteItems(xs);
    } else {
      c := Leaf(ls[0]);
    }
  }

  lemma {:induction false} MembersSound(ls: seq<Lexeme>, depth: nat, acc: map<string, Json>) returns (ms: seq<Member>)
    requires ReadMembers(ls, depth, acc).Done?
    ensures FreshMembers(ms, acc, depth + 1)
    ensures ls == FlattenMembers(ms, acc == map[]) + [RBrace] + ReadMembers(ls, depth, acc).rest
    ensures ReadMembers(ls, depth, acc).value == Object(DenoteMembers(ms, acc))
    decreases |ls|, 0
  {
    if ls != [] && ls[0] == RBrace {
      ms := [];
      MembersHead(ms, acc == map[], ls[1..]);
      assert ls == [RBrace] + ls[1..];
    } else {
      var whole := ReadMembers(ls, depth, acc);
      var ks := if acc == map[] then ls else ls[1..];
      var key, vs := ks[0].s, ks[2..];
      MemberTaken(ls, depth, acc, ks);
      var p := ReadValue(vs, depth + 1);
      var value := ReadSound(vs, depth + 1);
      var tail := MembersSound(p.rest, depth, acc[key := p.value]);
      ms := [Member(key, value)] + tail;
      MemberAdded(Member(key, value), tail, acc, p.value, depth + 1);
      MemberPut(ls, acc, Member(key, value), tail, vs, whole.rest);
    }
  }

  lemma MemberPut(
      ls: seq<Lexeme>, acc: map<string, Json>, m: Member, tail: seq<Member>, vs: seq<Lexeme>, rest: seq<Lexeme>)
    requires ls == Separator(acc == map[]) + ([Str(m.key), Colon] + vs)
    requires vs == Flatten(m.value) + (FlattenMembers(tail, false) + [RBrace] + rest)
    ensures ls == FlattenMembers([m] + tail, acc == map[]) + [RBrace] + rest
    ensures DenoteMembers([m] + tail, acc) == DenoteMembers(tail, acc[m.key := Denote(m.value)])
  {
    assert ([m] + tail)[1..] == tail;
    MembersJoin(acc == map[], [m] + tail, rest);
  }

  lemma MemberAdded(m: Member, tail: seq<Member>, acc: map<string, Json>, v: Json, depth: nat)
    requires m.key !in acc && WellFormed(m.value, depth) && FreshMembers(tail, acc[m.key := v], depth)
    ensures FreshMembers([m] + tail, acc, depth)
  {
  }

  lemma MemberTaken(ls: seq<Lexeme>, depth: nat, acc: map<string, Json>, ks: seq<Lexeme>)
    requires ReadMembers(ls, depth, acc).Done? && ls[0] != RBrace
    requires ks == if acc == map[] then ls else ls[1..]
    ensures |ks| >= 2 && ks[0].Str? && ks[0].s !in acc && ReadValue(ks[2..], depth + 1).Done?
    ensures ls == Separator(acc == map[]) + ([Str(ks[0].s), Colon] + ks[2..])
    ensures var p := ReadValue(ks[2..], depth + 1);
            p.Done? && acc[ks[0].s := p.value] != map[]
            && ReadMembers(ls, depth, acc) == ReadMembers(p.rest, depth, acc[ks[0].s := p.value])
  {
    assert ls == Separator(acc == map[]) + ks;
    assert ks[1..][1..] == ks[2..];
    assert ks == [ks[0], ks[1]] + ks[2..];
    var p := ReadValue(ks[2..], depth + 1);
    assert ks[0].s in acc[ks[0].s := p.value];
  }

  lemma {:induction false} ItemsSound(ls: seq<Lexeme>, depth: nat, acc: seq<Json>) returns (xs: seq<Syntax>)
    requires ReadElements(ls, depth, acc).Done?
    ensures forall i | 0 <= i < |xs| :: WellFormed(xs[i], depth + 1)
    ensures ls == FlattenItems(xs, acc == []) + [RBracket] + ReadElements(ls, depth, acc).rest
    ensures ReadElements(ls, depth, acc).value == Array(acc + DenoteItems(xs))
    decreases |ls|, 1
  {
    if ls != [] && ls[0] == RBracket {
      xs := [];
      NoItems(ls, depth, acc);
    } else {
      var whole := ReadElements(ls, depth, acc);
      var vs := if acc == [] then ls else ls[1..];
      ItemTaken(ls, depth, acc, vs);
      var p := ReadValue(vs, depth + 1);
      var item := ReadSound(vs, depth + 1);
      var tail := ItemsSound(p.rest, depth, acc + [p.value]);
      xs := [item] + tail;
      ItemPut(ls, acc, item, tail, vs, whole.rest);
      ItemAdded(item, tail, depth + 1);
    }
  }

  lemma ItemAdded(item: Syntax, tail: seq<Syntax>, depth: nat)
    requires WellFormed(item, depth) && forall i | 0 <= i < |tail| :: WellFormed(tail[i], depth)
    ensures forall i | 0 <= i < |[item] + tail| :: WellFormed(([item] + tail)[i], depth)
  {
  }

  lemma NoItems(ls: seq<Lexeme>, depth: nat, acc: seq<Json>)
    requires ls != [] && ls[0] == RBracket
    ensures ls == FlattenItems([], acc == []) + [RBracket] + ReadElements(ls, depth, acc).rest
    ensures ReadElements(ls, depth, acc) == Done(Array(acc + DenoteItems([])), ls[1..])
  {
    ItemsHead([], acc == [], ls[1..]);
    assert ls == [RBracket] + ls[1..];
    assert acc + DenoteItems([]) == acc;
  }

  lemma ItemTaken(ls: seq<Lexeme>, depth: nat, acc: seq<Json>, vs: seq<Lexeme>)
    requires ReadElements(ls, depth, acc).Done? && !(ls != [] && ls[0] == RBracket)
    requires vs == if acc == [] then ls else ls[1..]
    ensures ls == Separator(acc == []) + vs
    ensures var p := ReadValue(vs, depth + 1);
            && p.Done? && acc + [p.value] != []
            && ReadElements(ls, depth, acc) == ReadElements(p.rest, depth, acc + [p.value])
  {
  }

  lemma ItemPut(
      ls: seq<Lexeme>, acc: seq<Json>, item: Syntax, tail: seq<Syntax>, vs: seq<Lexeme>, rest: seq<Lexeme>)
    requires ls == Separator(acc == []) + vs
    requires vs == Flatten(item) + (FlattenItems(tail, false) + [RBracket] + rest)
    ensures ls == FlattenItems([item] + tail, acc == []) + [RBracket] + rest
    ensures acc + DenoteItems([item] + tail) == acc + [Denote(item)] + DenoteItems(tail)
  {
    assert ([item] + tail)[1..] == tail;
    ItemsSplit([item] + tail, acc == [], rest);
    Append(acc, Denote(item), DenoteItems(tail));
  }

  // ---- main results ----

  /** A message decodes to `v` exactly when its size is within bounds and its lexemes are a well-formed text of `v`. */
  lemma DecodeExact(raw: RawMessage, v: Json)
    ensures Decode(raw) == Some(v)
       <==> 0 < raw.size <= MAX_RAW
            && exists c :: Flatten(c) == raw.lexemes && WellFormed(c, 0) && Denote(c) == v
  {
    if Decode(raw) == Some(v) {
      var c := ReadSound(raw.lexemes, 0);
      assert Flatten(c) + [] == Flatten(c);
    }
    if 0 < raw.size <= MAX_RAW {
      forall c | Flatten(c) == raw.lexemes && WellFormed(c, 0) && Denote(c) == v ensures Decode(raw) == Some(v) {
        ReadComplete(c, 0, []);
        assert Flatten(c) + [] == Flatten(c);
      }
    }
  }
}
