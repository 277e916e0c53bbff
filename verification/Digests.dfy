/** The canonical text that is hashed for a dispatch, and reading that text back. */
module Digests {
  import opened Options
  import opened Decimal
  import opened Numbers
  import opened Exactness
  import opened JsonTree
  import opened Grammar
  import opened Reader
  import opened Acceptance
  import opened Encoder
  import opened Lexing
  import opened Rendering

  // ---- depth and number bounds of trees ----

  /** Placed at `depth`, the tree keeps the bounds of the reader. */
  predicate Readable(t: Json, depth: nat) {
    && depth <= MAX_DEPTH
    && match t
       case Number(n) => Accepted(n)
       case Object(fields) => forall k | k in fields :: Readable(fields[k], depth + 1)
       case Array(items) => forall i | 0 <= i < |items| :: Readable(items[i], depth + 1)
       case _ => true
  }

  lemma {:induction false} WellFormedDenotesReadable(c: Syntax, depth: nat)
    requires WellFormed(c, depth)
    ensures Readable(Denote(c), depth)
    decreases c
  {
    match c
    case Leaf(_) =>
    case ObjectText(ms) =>
      DenoteMembersMap(ms, map[]);
      forall k | k in DenoteMembers(ms, map[]) ensures Readable(DenoteMembers(ms, map[])[k], depth + 1) {
        var i :| 0 <= i < |ms| && ms[i].key == k;
        WellFormedDenotesReadable(ms[i].value, depth + 1);
      }
    case ArrayText(xs) =>
      forall i | 0 <= i < |xs| ensures Readable(DenoteItems(xs)[i], depth + 1) {
        DenoteItemsAt(xs, i);
        WellFormedDenotesReadable(xs[i], depth + 1);
      }
  }

  lemma {:induction false} ReadableIsPrintedWellFormed(t: Json, depth: nat)
    requires Readable(t, depth)
    ensures WellFormed(Printed(t), depth)
    decreases t
  {
    match t
    case Object(fields) =>
      var keys, ms := SortedKeys(fields.Keys), Printed(t).members;
      PrintedDenotes(t);
      forall i | 0 <= i < |ms| ensures WellFormed(ms[i].value, depth + 1) {
        assert keys[i] in keys;
        ReadableIsPrintedWellFormed(fields[keys[i]], depth + 1);
      }
    case Array(items) =>
      var xs := Printed(t).items;
      forall i | 0 <= i < |xs| ensures WellFormed(xs[i], depth + 1) {
        ReadableIsPrintedWellFormed(items[i], depth + 1);
      }
    case _ =>
  }

  lemma {:induction false} ReadableAccepted(t: Json, depth: nat)
    requires Readable(t, depth)
    ensures AcceptedTree(t)
    decreases t
  {
    match t
    case Object(fields) =>
      forall k | k in fields ensures AcceptedTree(fields[k]) {
        ReadableAccepted(fields[k], depth + 1);
      }
    case Array(items) =>
      forall i | 0 <= i < |items| ensures AcceptedTree(items[i]) {
        ReadableAccepted(items[i], depth + 1);
      }
    case _ =>
  }

  /** Canonicalisation moves no value to another depth, so only its number texts can leave the bounds. */
  lemma {:induction false} CanonReadable(t: Json, depth: nat)
    requires Readable(t, depth)
    ensures Readable(Canon(t), depth) <==> AcceptedTree(Canon(t))
    decreases t
  {
    match t
    case Object(fields) =>
      var c := Canon(t).fields;
      forall k | k in fields ensures Readable(c[k], depth + 1) <==> AcceptedTree(c[k]) {
        CanonReadable(fields[k], depth + 1);
      }
    case Array(items) =>
      var c := Canon(t).items;
      forall i | 0 <= i < |items| ensures Readable(c[i], depth + 1) <==> AcceptedTree(c[i]) {
        CanonReadable(items[i], depth + 1);
      }
    case _ =>
  }

  /** What the reader returns keeps its bounds; in particular every number in it fits the rewriter. */
  lemma DecodedReadable(raw: RawMessage)
    requires Decode(raw).Some?
    ensures Readable(Decode(raw).value, 0)
    ensures FitsTree(Decode(raw).value)
  {
    var v := Decode(raw).value;
    DecodeExact(raw, v);
    var c :| Flatten(c) == raw.lexemes && WellFormed(c, 0) && Denote(c) == v;
    WellFormedDenotesReadable(c, 0);
    ReadableAccepted(v, 0);
    AcceptedTreeFits(v);
  }

  // ---- round trip ----

  /** Reading the sorted text of a tree gives the tree back, if and only if the tree keeps the bounds of the reader. */
  lemma MarshalRoundTrip(t: Json, raw: RawMessage)
    requires raw.lexemes == Marshal(t) && 0 < raw.size <= MAX_RAW
    ensures Decode(raw) == Some(t) <==> Readable(t, 0)
  {
    if Readable(t, 0) {
      PrintedDenotes(t);
      ReadableIsPrintedWellFormed(t, 0);
      DecodeExact(raw, t);
    }
    if Decode(raw) == Some(t) {
      DecodedReadable(raw);
    }
  }

  /** Every number of the tree leaves room for its canonical spelling. */
  predicate LeavesRoomTree(t: Json) {
    match t
    case Number(n) => LeavesRoom(n)
    case Object(fields) => forall k | k in fields :: LeavesRoomTree(fields[k])
    case Array(items) => forall i | 0 <= i < |items| :: LeavesRoomTree(items[i])
    case _ => true
  }

  lemma {:induction false} CanonTreeAcceptedIff(t: Json)
    requires AcceptedTree(t)
    ensures AcceptedTree(Canon(t)) <==> LeavesRoomTree(t)
  {
    match t
    case Number(n) => CanonicalAcceptedIff(n);
    case Object(fields) =>
      var c := Canon(t).fields;
      forall k | k in fields ensures AcceptedTree(c[k]) <==> LeavesRoomTree(fields[k]) {
        CanonTreeAcceptedIff(fields[k]);
      }
    case Array(items) =>
      var c := Canon(t).items;
      forall i | 0 <= i < |items| ensures AcceptedTree(c[i]) <==> LeavesRoomTree(items[i]) {
        CanonTreeAcceptedIff(items[i]);
      }
    case _ =>
  }

  /** A decoded tree, written canonically, reads back unchanged if and only if all its numbers leave room for that. */
  lemma CanonicalRoundTrip(raw: RawMessage, canonical: RawMessage)
    requires Decode(raw).Some?
    requires canonical.lexemes == Marshal(Canon(Decode(raw).value)) && 0 < canonical.size <= MAX_RAW
    ensures Decode(canonical) == Some(Canon(Decode(raw).value)) <==> LeavesRoomTree(Decode(raw).value)
  {
    var v := Decode(raw).value;
    DecodedReadable(raw);
    ReadableAccepted(v, 0);
    CanonReadable(v, 0);
    CanonTreeAcceptedIff(v);
    MarshalRoundTrip(Canon(v), canonical);
  }

  lemma ToNat128()
    ensures ToNat("128") == 128
  {
    assert "128"[..2] == "12" && "12"[..1] == "1" && "1"[..0] == "";
    assert ToNat("1") == 1 && ToNat("12") == 12;
  }

  lemma TrimmedTen(ten: string)
    requires ten == "10"
    ensures AllDigits(ten) && TrimLeft(ten) == ten && |TrimRight(ten)| == 1
  {
    assert ten[..1] == "1" && TrimRight("1") == "1";
  }

  lemma ScaledNumber(digits: string, exponent: string) returns (n: NumberText)
    requires AllDigits(digits) && digits != "" && digits[0] != '0' && IsSigned(exponent)
    ensures n == digits + ("e" + exponent)
    ensures Split(n) == Parts(false, digits, false, "", true, exponent)
    ensures Significand(n) == digits && PointExponent(Split(n)) == SignedValue(exponent)
  {
    ScaledParts(Parts(false, digits, false, "", true, exponent));
    ScaledSplit(false, digits, exponent);
    assert "" + digits + ("e" + exponent) == digits + ("e" + exponent);
    n := digits + ("e" + exponent);
  }

  lemma ScaledParts(p: Parts)
    requires GoodParts(p) && p.whole[0] != '0' && p.marked && p.fraction == ""
    ensures PartsSignificand(p) == p.whole && PointExponent(p) == SignedValue(p.exponent)
  {
    assert p.whole + "" == p.whole;
  }

  lemma PointNumber(whole: string, fraction: string) returns (n: NumberText)
    requires AllDigits(whole) && |whole| == 1 && AllDigits(fraction) && fraction != ""
    ensures |n| == 2 + |fraction|
    ensures Split(n) == Parts(false, whole, true, fraction, false, "")
  {
    PointSplit(false, whole, fraction);
    assert "" + whole + ("." + fraction) == whole + ("." + fraction);
    n := whole + ("." + fraction);
  }

  /** "10e128" is accepted, but its canonical spelling has the exponent 129, which the reader refuses. */
  lemma ExponentMayGrow()
    ensures exists n: NumberText :: n == "10" + ("e" + "128") && Accepted(n) && !Accepted(Canonical(n))
  {
    ToNat128();
    TrimmedTen("10");
    BeyondExponent("10", "128");
  }

  lemma BeyondExponent(ten: string, exponent: string)
    requires AllDigits(ten) && |ten| == 2 && TrimLeft(ten) == ten && |TrimRight(ten)| == 1
    requires |exponent| == 3 && AllDigits(exponent) && ToNat(exponent) == 128
    ensures exists n: NumberText :: n == ten + ("e" + exponent) && Accepted(n) && !Accepted(Canonical(n))
  {
    LargeExponent(exponent);
    var n := ScaledNumber(ten, exponent);
    CanonicalAcceptedIff(n);
  }

  lemma LargeExponent(exponent: string)
    requires |exponent| == 3 && AllDigits(exponent) && ToNat(exponent) == 128
    ensures IsSigned(exponent) && SignedValue(exponent) == 128
  {
  }

  /** 128 characters with a point may need more than 128 without it, because the exponent is written out. */
  lemma LengthMayGrow()
    ensures exists n: NumberText :: Accepted(n) && -128 <= TrueExponent(n) <= 128 && |Canonical(n)| > 128
  {
    var ones := seq(126, _ => '1');
    var n := PointNumber("1", ones);
    Untrimmed("1" + ones);
    LongSignificand(n);
  }

  lemma Untrimmed(d: string)
    requires AllDigits(d) && d != "" && d[0] != '0' && d[|d| - 1] != '0'
    ensures TrimLeft(d) == d && TrimRight(d) == d
  {
  }

  lemma LongSignificand(n: NumberText)
    requires Accepted(n) && |TrimmedDigits(n)| == |Significand(n)| == 127 && PointExponent(Split(n)) == -126
    ensures -128 <= TrueExponent(n) <= 128 && |Canonical(n)| > 128
  {
    AcceptedBounds(n);
    MachineExponentIsTrue(n);
    CanonicalLength(n);
  }

  // ---- what is hashed ----

  const DISCOVER_RESOURCES := "discover_resources"
  const VERIFY_CONNECTION := "verify_connection"

  /** The characters hashed for a request. */
  function CanonicalText(request: RawMessage): Option<string> {
    match Decode(request)
    case None => None
    case Some(v) => Some(Written(Printed(Canon(v))))
  }

  /** `DispatchRequestDigest`; `sha256` hashes a text, `legacy` is the digest of the other phases. */
  function DispatchRequestDigest(
      phase: string, request: RawMessage, sha256: string -> string, legacy: RawMessage -> Option<string>)
    : Option<string>
  {
    if phase != DISCOVER_RESOURCES && phase != VERIFY_CONNECTION then legacy(request)
    else
      match CanonicalText(request)
      case None => None
      case Some(text) => Some("sha256:" + sha256(text))
  }

  /** What is hashed for an accepted request is a JSON text, and the text denotes the canonical tree. */
  lemma HashedTextDenotes(request: RawMessage)
    requires Decode(request).Some?
    ensures CanonicalText(request).Some?
    ensures exists c :: Lex(CanonicalText(request).value) == Some(Flatten(c))
                        && Denote(c) == Canon(Decode(request).value)
  {
    var c := Printed(Canon(Decode(request).value));
    LexWritten(c);
    PrintedDenotes(Canon(Decode(request).value));
  }

  /** Two accepted requests are hashed as the same text if and only if their values are `parameterEqual`. */
  lemma SameTextIffParameterEqual(a: RawMessage, b: RawMessage)
    requires Decode(a).Some? && Decode(b).Some?
    ensures CanonicalText(a) == CanonicalText(b) <==> ParameterEqual(Decode(a).value, Decode(b).value)
  {
    var x, y := Decode(a).value, Decode(b).value;
    DecodedReadable(a);
    DecodedReadable(b);
    ParameterEqualIffSameCanon(x, y);
    WrittenInjective(Printed(Canon(x)), Printed(Canon(y)));
    MarshalInjective(Canon(x), Canon(y));
  }

  /** All other phases are digested in the old way. */
  lemma OtherPhases(
      phase: string, request: RawMessage, sha256: string -> string, legacy: RawMessage -> Option<string>)
    requires phase != "discover_resources" && phase != "verify_connection"
    ensures DispatchRequestDigest(phase, request, sha256, legacy) == legacy(request)
  {
  }

  /** The digest exists exactly for what decodes, and, short of a collision, it identifies the value. */
  lemma DigestIdentifiesValue(
      phase: string, a: RawMessage, b: RawMessage, sha256: string -> string, legacy: RawMessage -> Option<string>)
    requires phase == "discover_resources" || phase == "verify_connection"
    ensures DispatchRequestDigest(phase, a, sha256, legacy)
         == if CanonicalText(a).Some? then Some("sha256:" + sha256(CanonicalText(a).value)) else None
    ensures DispatchRequestDigest(phase, a, sha256, legacy).Some? <==> Decode(a).Some?
    ensures Decode(a).Some? && Decode(b).Some? && ParameterEqual(Decode(a).value, Decode(b).value)
        ==> DispatchRequestDigest(phase, a, sha256, legacy) == DispatchRequestDigest(phase, b, sha256, legacy)
    ensures Decode(a).Some? && Decode(b).Some?
            && DispatchRequestDigest(phase, a, sha256, legacy) == DispatchRequestDigest(phase, b, sha256, legacy)
        ==> ParameterEqual(Decode(a).value, Decode(b).value)
            || (CanonicalText(a) != CanonicalText(b)
                && sha256(CanonicalText(a).value) == sha256(CanonicalText(b).value))
  {
    if Decode(a).Some? && Decode(b).Some? {
      SameTextIffParameterEqual(a, b);
      var p, x, y := "sha256:", sha256(CanonicalText(a).value), sha256(CanonicalText(b).value);
      assert (p + x)[|p|..] == x && (p + y)[|p|..] == y;
    }
  }
}
