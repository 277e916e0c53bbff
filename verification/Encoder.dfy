/** `json.Marshal` of a decoded tree: one text per tree, with the keys of every object in ascending order. */
module Encoder {
  import opened JsonTree
  import opened Grammar

  // ---- the order of keys ----

  /** Strict lexicographic order of strings, character by character. */
  predicate Below(a: string, b: string) {
    b != "" && (a == "" || a[0] < b[0] || (a[0] == b[0] && Below(a[1..], b[1..])))
  }

  /** The strings part at `i`: there `a` has ended or has the smaller character. */
  predicate PartsAt(a: string, b: string, i: nat) {
    i <= |a| && i < |b| && a[..i] == b[..i] && (i == |a| || a[i] < b[i])
  }

  lemma SameFirst(a: string, b: string, i: nat)
    requires 0 < i <= |a| && i <= |b| && a[..i] == b[..i]
    ensures a[0] == b[0]
  {
    assert a[0] == a[..i][0] && b[0] == b[..i][0];
  }

  /** A string comes before another if it is a prefix of it, or at the first difference has the smaller character. */
  lemma {:induction false} BelowIff(a: string, b: string)
    ensures Below(a, b) <==> exists i: nat :: PartsAt(a, b, i)
  {
    if a == "" || b == "" || a[0] != b[0] {
      assert Below(a, b) ==> PartsAt(a, b, 0);
      forall i: nat | PartsAt(a, b, i) ensures i == 0 {
        if i > 0 {
          SameFirst(a, b, i);
        }
      }
    } else {
      BelowIff(a[1..], b[1..]);
      forall i: nat | PartsAt(a[1..], b[1..], i) ensures PartsAt(a, b, i + 1) {
        assert a[..i + 1] == [a[0]] + a[1..][..i] && b[..i + 1] == [b[0]] + b[1..][..i];
      }
      forall i: nat | PartsAt(a, b, i) ensures i > 0 && PartsAt(a[1..], b[1..], i - 1) {
        assert i > 0 ==> a[1..][..i - 1] == a[..i][1..] && b[1..][..i - 1] == b[..i][1..];
      }
    }
  }

  lemma {:induction false} BelowIsStrictOrder(a: string, b: string, c: string)
    ensures !Below(a, a)
    ensures Below(a, b) && Below(b, c) ==> Below(a, c)
    ensures a == b || Below(a, b) || Below(b, a)
  {
    if a != "" && b != "" {
      BelowIsStrictOrder(a[1..], b[1..], if c == "" then c else c[1..]);
      assert a == [a[0]] + a[1..] && b == [b[0]] + b[1..];
    } else if a != "" {
      BelowIsStrictOrder(a[1..], "", "");
    }
  }

  predicate Ascending(keys: seq<string>) {
    forall i, j | 0 <= i < j < |keys| :: Below(keys[i], keys[j])
  }

  lemma {:induction false} LeastKey(keys: set<string>) returns (least: string)
    requires keys != {}
    ensures IsLeast(least, keys)
  {
    var k :| k in keys;
    if keys == {k} {
      least := k;
    } else {
      least := LeastKey(keys - {k});
      BelowIsStrictOrder(k, least, k);
      if Below(k, least) {
        forall x | x in keys && x != k ensures Below(k, x) {
          BelowIsStrictOrder(k, least, x);
        }
        least := k;
      }
    }
  }

  predicate IsLeast(least: string, keys: set<string>) {
    least in keys && forall k | k in keys && k != least :: Below(least, k)
  }

  function Least(keys: set<string>): (least: string)
    requires keys != {}
    ensures IsLeast(least, keys)
  {
    LeastExists(keys);
    var least :| least in keys && IsLeast(least, keys);
    least
  }

  lemma LeastExists(keys: set<string>)
    requires keys != {}
    ensures exists least :: least in keys && IsLeast(least, keys)
    ensures forall a, b | IsLeast(a, keys) && IsLeast(b, keys) :: a == b
  {
    var least := LeastKey(keys);
    forall a, b | IsLeast(a, keys) && IsLeast(b, keys) ensures a == b {
      BelowIsStrictOrder(a, b, a);
    }
  }

  /** The keys of a map in the order in which `encoding/json` writes them. */
  function SortedKeys(keys: set<string>): (s: seq<string>)
    ensures forall k :: k in s <==> k in keys
    ensures Ascending(s)
    decreases keys
  {
    if keys == {} then []
    else [Least(keys)] + SortedKeys(keys - {Least(keys)})
  }

  /** There is only one ascending order of a set of keys. */
  lemma {:induction false} AscendingUnique(s: seq<string>, t: seq<string>)
    requires Ascending(s) && Ascending(t) && forall k :: k in s <==> k in t
    ensures s == t
  {
    if s == [] || t == [] {
      var x := if s != [] then s[0] else if t != [] then t[0] else "";
      assert x in s <==> x in t;
    } else {
      assert s[0] in t && t[0] in s;
      BelowIsStrictOrder(s[0], t[0], s[0]);
      assert s[0] == t[0];
      TailKeys(s, t);
      AscendingUnique(s[1..], t[1..]);
      assert s == [s[0]] + s[1..] && t == [t[0]] + t[1..];
    }
  }

  lemma TailKeys(s: seq<string>, t: seq<string>)
    requires Ascending(s) && Ascending(t) && forall k :: k in s <==> k in t
    requires s != [] && t != [] && s[0] == t[0]
    ensures forall k :: k in s[1..] <==> k in t[1..]
  {
    BelowIsStrictOrder(s[0], s[0], s[0]);
    var x := s[0];
    assert x !in s[1..] && x !in t[1..];
    forall k ensures k in s[1..] <==> k in t[1..] {
      assert k in s <==> k == x || k in s[1..];
      assert k in t <==> k == x || k in t[1..];
    }
  }

  // ---- printing ----

  /** The text written for a tree. */
  function Printed(t: Json): Syntax {
    match t
    case Null => Leaf(Nil)
    case Bool(b) => Leaf(if b then True else False)
    case Text(s) => Leaf(Str(s))
    case Number(n) => Leaf(Num(n))
    case Object(fields) =>
      var keys := SortedKeys(fields.Keys);
      ObjectText(seq(|keys|, i requires 0 <= i < |keys| =>
        assert keys[i] in keys; Member(keys[i], Printed(fields[keys[i]]))))
    case Array(items) => ArrayText(seq(|items|, i requires 0 <= i < |items| => Printed(items[i])))
  }

  function Marshal(t: Json): seq<Lexeme> {
    Flatten(Printed(t))
  }

  predicate HasKey(ms: seq<Member>, k: string) {
    exists i | 0 <= i < |ms| :: ms[i].key == k
  }

  lemma {:induction false} DenoteMembersMap(ms: seq<Member>, acc: map<string, Json>)
    requires DistinctKeys(ms)
    ensures forall k :: k in DenoteMembers(ms, acc) <==> k in acc || HasKey(ms, k)
    ensures forall i | 0 <= i < |ms| ::
              ms[i].key in DenoteMembers(ms, acc) && DenoteMembers(ms, acc)[ms[i].key] == Denote(ms[i].value)
    ensures forall k | k in acc && !HasKey(ms, k) :: DenoteMembers(ms, acc)[k] == acc[k]
  {
    if ms == [] {
    } else {
      var acc' := acc[ms[0].key := Denote(ms[0].value)];
      DenoteMembersMap(ms[1..], acc');
      forall k ensures HasKey(ms, k) <==> k == ms[0].key || HasKey(ms[1..], k) {
        HasKeyCons(ms, k);
      }
      assert !HasKey(ms[1..], ms[0].key);
    }
  }

  lemma HasKeyCons(ms: seq<Member>, k: string)
    requires ms != []
    ensures HasKey(ms, k) <==> k == ms[0].key || HasKey(ms[1..], k)
  {
    if HasKey(ms[1..], k) {
      var i :| 0 <= i < |ms[1..]| && ms[1..][i].key == k;
      assert ms[i + 1].key == k;
    }
    if HasKey(ms, k) && k != ms[0].key {
      var i :| 0 <= i < |ms| && ms[i].key == k;
      assert ms[1..][i - 1].key == k;
    }
  }

  lemma {:induction false} DenoteItemsAt(xs: seq<Syntax>, i: nat)
    requires i < |xs|
    ensures DenoteItems(xs)[i] == Denote(xs[i])
  {
    if i == 0 {
    } else {
      DenoteItemsAt(xs[1..], i - 1);
    }
  }

  /** Printing loses nothing: the printed text denotes the tree, and its keys are distinct. */
  lemma {:induction false} PrintedDenotes(t: Json)
    ensures Denote(Printed(t)) == t
    ensures t.Object? ==> DistinctKeys(Printed(t).members)
  {
    match t
    case Object(fields) =>
      forall k | k in fields ensures Denote(Printed(fields[k])) == fields[k] {
        PrintedDenotes(fields[k]);
      }
      PrintedObject(fields);
    case Array(items) =>
      var xs := Printed(t).items;
      forall i | 0 <= i < |items| ensures DenoteItems(xs)[i] == items[i] {
        PrintedDenotes(items[i]);
        DenoteItemsAt(xs, i);
      }
      assert DenoteItems(xs) == items;
    case _ =>
  }

  lemma PrintedObject(fields: map<string, Json>)
    requires forall k | k in fields :: Denote(Printed(fields[k])) == fields[k]
    ensures Denote(Printed(Object(fields))) == Object(fields)
    ensures DistinctKeys(Printed(Object(fields)).members)
  {
    var keys, ms := SortedKeys(fields.Keys), Printed(Object(fields)).members;
    AscendingDistinct(keys);
    forall i | 0 <= i < |keys| ensures ms[i].key in fields && Denote(ms[i].value) == fields[ms[i].key] {
      assert keys[i] in keys;
    }
    forall k | k in fields ensures HasKey(ms, k) {
      assert k in keys;
      var i :| 0 <= i < |keys| && keys[i] == k;
      assert ms[i].key == k;
    }
    ObjectDenotes(fields, ms);
  }

  lemma ObjectDenotes(fields: map<string, Json>, ms: seq<Member>)
    requires DistinctKeys(ms)
    requires forall i | 0 <= i < |ms| :: ms[i].key in fields && Denote(ms[i].value) == fields[ms[i].key]
    requires forall k | k in fields :: HasKey(ms, k)
    ensures DenoteMembers(ms, map[]) == fields
  {
    var d := DenoteMembers(ms, map[]);
    forall k ensures k in d <==> k in fields {
      ObjectKey(fields, ms, k);
    }
    forall k | k in fields ensures d[k] == fields[k] {
      ObjectKey(fields, ms, k);
    }
  }

  lemma ObjectKey(fields: map<string, Json>, ms: seq<Member>, k: string)
    requires DistinctKeys(ms)
    requires forall i | 0 <= i < |ms| :: ms[i].key in fields && Denote(ms[i].value) == fields[ms[i].key]
    requires k in fields ==> HasKey(ms, k)
    ensures k in DenoteMembers(ms, map[]) <==> k in fields
    ensures k in fields ==> DenoteMembers(ms, map[])[k] == fields[k]
  {
    DenoteMembersMap(ms, map[]);
    if HasKey(ms, k) {
      var i :| 0 <= i < |ms| && ms[i].key == k;
    }
  }

  lemma AscendingDistinct(keys: seq<string>)
    requires Ascending(keys)
    ensures forall i, j | 0 <= i < j < |keys| :: keys[i] != keys[j]
  {
    forall i, j | 0 <= i < j < |keys| ensures keys[i] != keys[j] {
      BelowIsStrictOrder(keys[i], keys[i], keys[i]);
    }
  }

  /** Members are printed in this order of their keys. */
  lemma PrintedInOrder(fields: map<string, Json>, i: nat, j: nat)
    requires i < j < |Printed(Object(fields)).members|
    ensures var ms := Printed(Object(fields)).members; exists n: nat :: PartsAt(ms[i].key, ms[j].key, n)
  {
    var keys := SortedKeys(fields.Keys);
    var ms := Printed(Object(fields)).members;
    assert keys[i] == ms[i].key && keys[j] == ms[j].key;
    assert Below(keys[i], keys[j]);
    BelowIff(keys[i], keys[j]);
  }

  /** Different trees are written differently. */
  lemma MarshalInjective(a: Json, b: Json)
    ensures Marshal(a) == Marshal(b) <==> a == b
  {
    if Marshal(a) == Marshal(b) {
      FlattenInjective(Printed(a), Printed(b), [], []);
      PrintedDenotes(a);
      PrintedDenotes(b);
    }
  }
}
