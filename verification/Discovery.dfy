/** Resource discovery: the request and the text that is hashed for it, and the validation of a response page. */
module Discovery {
  import opened Options
  import opened Decimal
  import opened Texts
  import opened Numbers
  import opened Exactness
  import opened JsonTree
  import opened Grammar
  import opened Reader
  import opened Encoder
  import opened Lexing
  import opened Rendering
  import opened Digests
  import opened Storage
  import opened Rules

  const PROTOCOL := "misconfig.resource-discovery/v1"
  const SECOND: int := 1_000_000_000

  datatype ResourceDiscovery = ResourceDiscovery(maximumPageSize: int, maximumAgeSeconds: int)

  /** A capability: whether its own validation succeeds, its digest, and its discovery contract. */
  datatype ActionCapability = ActionCapability(
    ref: string, valid: bool, digest: string, discovery: Option<ResourceDiscovery>)

  /**
   * A `time.Time`: nanoseconds since the zero time of Go, and how `encoding/json` writes it in its zone. Years beyond
   * 9999 cannot be written.
   */
  datatype Time = Time(instant: int, text: Option<string>)

  datatype DiscoveryRequest = DiscoveryRequest(
    protocol: string,
    requestID: string,
    tenantID: string,
    connectionID: string,
    provider: string,
    release: string,
    manifestDigest: string,
    accountRef: string,
    capabilityRef: string,
    capabilityDigest: string,
    configuration: RawMessage,
    query: string,
    cursor: string,
    limit: int,
    resourceIDs: Option<seq<string>>,
    now: Time)

  // ---- requests ----

  predicate GoodIDs(ids: seq<string>) {
    (forall i | 0 <= i < |ids| :: DiscoveryText(ids[i], 2048)) && Distinct(ids)
  }

  predicate GoodRequest(r: DiscoveryRequest, c: ActionCapability) {
    && c.valid && c.discovery.Some?
    && r.protocol == PROTOCOL && r.capabilityRef == c.ref && r.capabilityDigest == c.digest
    && IsDigest(r.manifestDigest) && r.now.instant != 0
    && DiscoveryText(r.requestID, 2048) && DiscoveryText(r.tenantID, 2048) && DiscoveryText(r.connectionID, 2048)
    && DiscoveryText(r.provider, 2048) && DiscoveryText(r.release, 2048) && DiscoveryText(r.accountRef, 2048)
    && 1 <= r.limit <= c.discovery.value.maximumPageSize
    && Decode(r.configuration).Some? && Decode(r.configuration).value.Object?
    && (r.query != "" ==> DiscoveryText(r.query, 256))
    && (r.cursor != "" ==> DiscoveryText(r.cursor, 4096))
    && (r.resourceIDs.Some? ==>
          r.query == "" && r.cursor == "" && 1 <= |r.resourceIDs.value| <= r.limit && GoodIDs(r.resourceIDs.value))
  }

  lemma ProtocolIs(r: DiscoveryRequest, c: ActionCapability)
    requires GoodRequest(r, c)
    ensures r.protocol == "misconfig.resource-discovery/v1"
  {
  }

  /** `validDiscoveryIDs`. */
  method ValidDiscoveryIDs(ids: seq<string>) returns (ok: bool)
    ensures ok <==> GoodIDs(ids)
  {
    var seen: set<string> := {};
    for i := 0 to |ids|
      invariant forall j | 0 <= j < i :: DiscoveryText(ids[j], 2048)
      invariant forall id :: id in seen <==> id in ids[..i]
      invariant Distinct(ids[..i])
    {
      if !DiscoveryText(ids[i], 2048) || ids[i] in seen {
        return false;
      }
      seen := seen + {ids[i]};
    }
    assert ids[..|ids|] == ids;
    return true;
  }

  /** `DiscoveryRequest.Validate`; a configuration that decodes is also valid JSON within 64 KiB. */
  method ValidateRequest(r: DiscoveryRequest, c: ActionCapability) returns (ok: bool)
    ensures ok <==> GoodRequest(r, c)
  {
    if !c.valid || c.discovery.None? {
      return false;
    }
    if r.protocol != PROTOCOL || r.capabilityRef != c.ref || r.capabilityDigest != c.digest
       || !IsDigest(r.manifestDigest) || r.now.instant == 0 {
      return false;
    }
    var coordinates := [r.requestID, r.tenantID, r.connectionID, r.provider, r.release, r.accountRef];
    for i := 0 to 6
      invariant forall j | 0 <= j < i :: DiscoveryText(coordinates[j], 2048)
    {
      if !DiscoveryText(coordinates[i], 2048) {
        return false;
      }
    }
    assert DiscoveryText(coordinates[0], 2048) && DiscoveryText(coordinates[1], 2048)
        && DiscoveryText(coordinates[2], 2048) && DiscoveryText(coordinates[3], 2048)
        && DiscoveryText(coordinates[4], 2048) && DiscoveryText(coordinates[5], 2048);
    if r.limit < 1 || r.limit > c.discovery.value.maximumPageSize {
      return false;
    }
    var configuration := DecodeParameterJSON(r.configuration);
    if configuration.None? || !configuration.value.Object? {
      return false;
    }
    if (r.query != "" && !DiscoveryText(r.query, 256)) || (r.cursor != "" && !DiscoveryText(r.cursor, 4096)) {
      return false;
    }
    if r.resourceIDs.Some? {
      if r.query != "" || r.cursor != "" || |r.resourceIDs.value| == 0 || |r.resourceIDs.value| > r.limit {
        return false;
      }
      ok := ValidDiscoveryIDs(r.resourceIDs.value);
      return;
    }
    return true;
  }

  // ---- the text that is hashed ----

  function IntText(n: int): NumberText {
    var digits := Digits(if n < 0 then -n else n);
    PlainSplit(n < 0, digits);
    (if n < 0 then "-" else "") + digits
  }

  lemma IntTextInjective(a: int, b: int)
    requires IntText(a) == IntText(b)
    ensures a == b
  {
    PlainSplit(a < 0, Digits(if a < 0 then -a else a));
    PlainSplit(b < 0, Digits(if b < 0 then -b else b));
  }

  function TextMember(key: string, value: string): Member {
    Member(key, Leaf(Str(value)))
  }

  /** The members written for every request. */
  function FixedMembers(r: DiscoveryRequest, configuration: Json): (ms: seq<Member>)
    ensures |ms| == 11
  {
    [TextMember("protocol", r.protocol), TextMember("request_id", r.requestID), TextMember("tenant_id", r.tenantID),
     TextMember("connection_id", r.connectionID), TextMember("provider", r.provider),
     TextMember("release", r.release), TextMember("manifest_digest", r.manifestDigest),
     TextMember("account_ref", r.accountRef), TextMember("capability_ref", r.capabilityRef),
     TextMember("capability_digest", r.capabilityDigest), Member("configuration", Printed(Canon(configuration)))]
  }

  /** The members after them; an empty query, cursor or list of identities is omitted. */
  function OtherMembers(r: DiscoveryRequest): seq<Member>
    requires r.now.text.Some?
  {
    (if r.query != "" then [TextMember("query", r.query)] else [])
    + (if r.cursor != "" then [TextMember("cursor", r.cursor)] else [])
    + [Member("limit", Leaf(Num(IntText(r.limit))))]
    + (if r.resourceIDs.Some? && r.resourceIDs.value != []
       then [Member("resource_ids", IDList(r.resourceIDs.value))] else [])
    + [TextMember("now", r.now.text.value)]
  }

  function IDList(ids: seq<string>): Syntax {
    ArrayText(seq(|ids|, i requires 0 <= i < |ids| => Leaf(Str(ids[i]))))
  }

  /** What `DiscoveryRequestDigest` hashes: the request, with its configuration canonicalised. */
  function RequestText(r: DiscoveryRequest): string
    requires Decode(r.configuration).Some? && r.now.text.Some?
  {
    Written(ObjectText(Members(r)))
  }

  function DiscoveryRequestDigest(r: DiscoveryRequest, c: ActionCapability, sha256: string -> string): Option<string> {
    if GoodRequest(r, c) && r.now.text.Some? then Some("sha256:" + sha256(RequestText(r))) else None
  }

  /** Which member stands where. */
  lemma OtherMembersAt(r: DiscoveryRequest)
    requires r.now.text.Some? && r.resourceIDs != Some([])
    ensures var ms := OtherMembers(r);
            var i := if r.query != "" then 1 else 0;
            var k := i + if r.cursor != "" then 1 else 0;
            && |ms| >= k + 2
            && ms[0].key == (if r.query != "" then "query" else if r.cursor != "" then "cursor" else "limit")
            && (r.query != "" ==> ms[0] == TextMember("query", r.query))
            && ms[i].key == (if r.cursor != "" then "cursor" else "limit")
            && (r.cursor != "" ==> ms[i] == TextMember("cursor", r.cursor))
            && ms[k] == Member("limit", Leaf(Num(IntText(r.limit))))
            && ms[k + 1].key == (if r.resourceIDs.Some? then "resource_ids" else "now")
            && (r.resourceIDs.Some? ==> ms[k + 1].value == IDList(r.resourceIDs.value))
            && ms[|ms| - 1] == TextMember("now", r.now.text.value)
  {
  }

  lemma OtherMembersInjective(a: DiscoveryRequest, b: DiscoveryRequest)
    requires a.now.text.Some? && b.now.text.Some?
    requires OtherMembers(a) == OtherMembers(b)
    requires a.resourceIDs != Some([]) && b.resourceIDs != Some([])
    ensures a.query == b.query && a.cursor == b.cursor && a.limit == b.limit
    ensures a.resourceIDs == b.resourceIDs && a.now.text == b.now.text
  {
    OtherMembersAt(a);
    OtherMembersAt(b);
    KeysDiffer();
    var x := OtherMembers(a);
    var i := if a.query != "" then 1 else 0;
    assert a.query != "" <==> x[0].key == "query";
    assert a.cursor != "" <==> x[i].key == "cursor";
    IntTextInjective(a.limit, b.limit);
    if a.resourceIDs.Some? {
      IDListInjective(a.resourceIDs.value, b.resourceIDs.value);
    }
  }

  lemma KeysDiffer()
    ensures "query" != "cursor" && "query" != "limit" && "cursor" != "limit" && "resource_ids" != "now"
  {
    assert "query"[0] != "cursor"[0] && "query"[0] != "limit"[0] && "cursor"[0] != "limit"[0];
    assert "resource_ids"[0] != "now"[0];
  }

  lemma IDListInjective(a: seq<string>, b: seq<string>)
    requires IDList(a) == IDList(b)
    ensures a == b
  {
    assert |a| == |IDList(a).items| == |IDList(b).items| == |b|;
    forall i | 0 <= i < |a| ensures a[i] == b[i] {
      assert IDList(a).items[i] == IDList(b).items[i];
    }
  }

  const FIXED_KEYS: seq<string> := [
    "protocol", "request_id", "tenant_id", "connection_id", "provider", "release", "manifest_digest", "account_ref",
    "capability_ref", "capability_digest", "configuration"]

  /** The identities of an exact request; those of a search and an empty list are not written. */
  function IDs(r: DiscoveryRequest): seq<string> {
    if r.resourceIDs.Some? then r.resourceIDs.value else []
  }

  function OtherKeys(r: DiscoveryRequest): seq<string> {
    (if r.query != "" then ["query"] else []) + (if r.cursor != "" then ["cursor"] else []) + ["limit"]
    + (if IDs(r) != [] then ["resource_ids"] else []) + ["now"]
  }

  function MemberKeys(ms: seq<Member>): seq<string> {
    seq(|ms|, i requires 0 <= i < |ms| => ms[i].key)
  }

  lemma KeysConcat(a: seq<Member>, b: seq<Member>)
    ensures MemberKeys(a + b) == MemberKeys(a) + MemberKeys(b)
  {
  }

  function Members(r: DiscoveryRequest): seq<Member>
    requires Decode(r.configuration).Some? && r.now.text.Some?
  {
    FixedMembers(r, Decode(r.configuration).value) + OtherMembers(r)
  }

  lemma FixedMemberKeys(r: DiscoveryRequest, configuration: Json)
    ensures MemberKeys(FixedMembers(r, configuration)) == FIXED_KEYS
  {
  }

  lemma OptionalKey(present: bool, key: string, m: Member)
    requires m.key == key
    ensures MemberKeys(if present then [m] else []) == if present then [key] else []
  {
  }

  lemma FiveKeys(a: seq<Member>, b: seq<Member>, c: seq<Member>, d: seq<Member>, e: seq<Member>)
    ensures MemberKeys(a + b + c + d + e)
         == MemberKeys(a) + MemberKeys(b) + MemberKeys(c) + MemberKeys(d) + MemberKeys(e)
  {
    KeysConcat(a + b + c + d, e);
    KeysConcat(a + b + c, d);
    KeysConcat(a + b, c);
    KeysConcat(a, b);
  }

  lemma OtherMemberKeys(r: DiscoveryRequest)
    requires r.now.text.Some?
    ensures MemberKeys(OtherMembers(r)) == OtherKeys(r)
  {
    var ids := IDs(r);
    var a, b := TextMember("query", r.query), TextMember("cursor", r.cursor);
    var c, d := Member("limit", Leaf(Num(IntText(r.limit)))), Member("resource_ids", IDList(ids));
    var e := TextMember("now", r.now.text.value);
    OptionalKey(r.query != "", "query", a);
    OptionalKey(r.cursor != "", "cursor", b);
    OptionalKey(true, "limit", c);
    OptionalKey(ids != [], "resource_ids", d);
    OptionalKey(true, "now", e);
    FiveKeys(if r.query != "" then [a] else [], if r.cursor != "" then [b] else [], [c],
             if ids != [] then [d] else [], [e]);
  }

  /** What the members say, in the same order. */
  function FixedValues(r: DiscoveryRequest, configuration: Json): seq<Json> {
    [Text(r.protocol), Text(r.requestID), Text(r.tenantID), Text(r.connectionID), Text(r.provider), Text(r.release),
     Text(r.manifestDigest), Text(r.accountRef), Text(r.capabilityRef), Text(r.capabilityDigest), Canon(configuration)]
  }

  function OtherValues(r: DiscoveryRequest): seq<Json>
    requires r.now.text.Some?
  {
    (if r.query != "" then [Text(r.query)] else []) + (if r.cursor != "" then [Text(r.cursor)] else [])
    + [Number(IntText(r.limit))] + (if IDs(r) != [] then [Array(IDTexts(IDs(r)))] else [])
    + [Text(r.now.text.value)]
  }

  function MemberValues(ms: seq<Member>): seq<Json> {
    seq(|ms|, i requires 0 <= i < |ms| => Denote(ms[i].value))
  }

  lemma FiveValues(a: seq<Member>, b: seq<Member>, c: seq<Member>, d: seq<Member>, e: seq<Member>)
    ensures MemberValues(a + b + c + d + e)
         == MemberValues(a) + MemberValues(b) + MemberValues(c) + MemberValues(d) + MemberValues(e)
  {
    ValuesConcat(a + b + c + d, e);
    ValuesConcat(a + b + c, d);
    ValuesConcat(a + b, c);
    ValuesConcat(a, b);
  }

  lemma ValuesConcat(a: seq<Member>, b: seq<Member>)
    ensures MemberValues(a + b) == MemberValues(a) + MemberValues(b)
  {
  }

  lemma OptionalValue(present: bool, m: Member, v: Json)
    requires Denote(m.value) == v
    ensures MemberValues(if present then [m] else []) == if present then [v] else []
  {
  }

  lemma FixedMemberValues(r: DiscoveryRequest, configuration: Json)
    ensures MemberValues(FixedMembers(r, configuration)) == FixedValues(r, configuration)
  {
    PrintedDenotes(Canon(configuration));
  }

  lemma OtherMemberValues(r: DiscoveryRequest)
    requires r.now.text.Some?
    ensures MemberValues(OtherMembers(r)) == OtherValues(r)
  {
    var ids := IDs(r);
    var a, b := TextMember("query", r.query), TextMember("cursor", r.cursor);
    var c, d := Member("limit", Leaf(Num(IntText(r.limit)))), Member("resource_ids", IDList(ids));
    var e := TextMember("now", r.now.text.value);
    IDListDenotes(ids);
    OptionalValue(r.query != "", a, Text(r.query));
    OptionalValue(r.cursor != "", b, Text(r.cursor));
    OptionalValue(true, c, Number(IntText(r.limit)));
    OptionalValue(ids != [], d, Array(IDTexts(ids)));
    OptionalValue(true, e, Text(r.now.text.value));
    FiveValues(if r.query != "" then [a] else [], if r.cursor != "" then [b] else [], [c],
               if ids != [] then [d] else [], [e]);
  }

  /** What is hashed for a request is a JSON text of an object with these members in this order. */
  lemma RequestTextDenotes(r: DiscoveryRequest)
    requires Decode(r.configuration).Some? && r.now.text.Some?
    ensures Lex(RequestText(r)) == Some(Flatten(ObjectText(Members(r))))
    ensures MemberKeys(Members(r)) == FIXED_KEYS + OtherKeys(r)
    ensures MemberValues(Members(r)) == FixedValues(r, Decode(r.configuration).value) + OtherValues(r)
    ensures Value(IntText(r.limit)) == r.limit as real
  {
    var fixed, other := FixedMembers(r, Decode(r.configuration).value), OtherMembers(r);
    LexWritten(ObjectText(Members(r)));
    FixedMemberKeys(r, Decode(r.configuration).value);
    OtherMemberKeys(r);
    KeysConcat(fixed, other);
    FixedMemberValues(r, Decode(r.configuration).value);
    OtherMemberValues(r);
    ValuesConcat(fixed, other);
    IntTextValue(r.limit);
  }

  function IDTexts(ids: seq<string>): seq<Json> {
    seq(|ids|, i requires 0 <= i < |ids| => Text(ids[i]))
  }

  lemma IDListDenotes(ids: seq<string>)
    ensures Denote(IDList(ids)) == Array(IDTexts(ids))
  {
    var xs := IDList(ids).items;
    forall i | 0 <= i < |ids| ensures DenoteItems(xs)[i] == Text(ids[i]) {
      DenoteItemsAt(xs, i);
    }
    assert DenoteItems(xs) == IDTexts(ids);
  }

  lemma IntTextValue(n: int)
    ensures Value(IntText(n)) == n as real && (IntText(n)[0] == '-' <==> n < 0)
  {
    var digits := Digits(if n < 0 then -n else n);
    PlainSplit(n < 0, digits);
    MagnitudeIsPoint(digits, "", 0);
    assert digits + "" == digits;
  }

  /** Valid requests are hashed as one text exactly when they differ at most in how the configuration is spelled. */
  lemma RequestTextBinds(a: DiscoveryRequest, b: DiscoveryRequest, c: ActionCapability, d: ActionCapability)
    requires GoodRequest(a, c) && GoodRequest(b, d) && a.now.text.Some? && b.now.text.Some?
    ensures RequestText(a) == RequestText(b)
       <==> a.(configuration := b.configuration, now := b.now) == b && a.now.text == b.now.text
            && ParameterEqual(Decode(a.configuration).value, Decode(b.configuration).value)
  {
    var x, y := Decode(a.configuration).value, Decode(b.configuration).value;
    var p, q := FixedMembers(a, x), FixedMembers(b, y);
    var s, t := OtherMembers(a), OtherMembers(b);
    ConfigurationBinds(a.configuration, b.configuration);
    if RequestText(a) == RequestText(b) {
      WrittenInjective(ObjectText(p + s), ObjectText(q + t));
      assert p == (p + s)[..11] == (q + t)[..11] == q;
      assert s == (p + s)[11..] == (q + t)[11..] == t;
      FixedMembersInjective(a, x, b, y);
      OtherMembersInjective(a, b);
    }
  }

  /**
   * A request whose configuration was stored with plain numbers stays valid if and only if these are at most 128
   * characters long, and then keeps its digest.
   */
  lemma StoredKeepsRequestDigest(
      r: DiscoveryRequest, c: ActionCapability, stored: RawMessage, syntax: Syntax, sha256: string -> string)
    requires GoodRequest(r, c)
    requires stored.lexemes == Flatten(syntax) && KeysOnce(syntax) && 0 < stored.size <= MAX_RAW
    requires Denote(syntax) == PlainTree(Decode(r.configuration).value)
    ensures var s, v := r.(configuration := stored), Decode(r.configuration).value;
            && (GoodRequest(s, c) <==> ShortTree(v))
            && (GoodRequest(s, c) && r.now.text.Some? ==> RequestText(s) == RequestText(r))
            && DiscoveryRequestDigest(s, c, sha256)
               == if ShortTree(v) then DiscoveryRequestDigest(r, c, sha256) else None
  {
    var s, v := r.(configuration := stored), Decode(r.configuration).value;
    StoredKeepsHash(r.configuration, stored, syntax);
    KeysOnceDecodes(stored, syntax);
    ReplacedConfiguration(r, c, stored);
    if Decode(stored).Some? && r.now.text.Some? {
      SameTextIffParameterEqual(stored, r.configuration);
      RequestTextBinds(s, r, c, c);
    }
  }

  lemma ReplacedConfiguration(r: DiscoveryRequest, c: ActionCapability, stored: RawMessage)
    requires GoodRequest(r, c)
    ensures GoodRequest(r.(configuration := stored), c) <==> Decode(stored).Some? && Decode(stored).value.Object?
  {
  }

  /** Valid requests with a time that can be written have a digest, which names the hash; no others have one. */
  lemma RequestDigestIs(r: DiscoveryRequest, c: ActionCapability, sha256: string -> string)
    ensures DiscoveryRequestDigest(r, c, sha256).Some? <==> GoodRequest(r, c) && r.now.text.Some?
    ensures GoodRequest(r, c) && r.now.text.Some?
        ==> DiscoveryRequestDigest(r, c, sha256).value[..7] == "sha256:"
            && DiscoveryRequestDigest(r, c, sha256).value[7..] == sha256(RequestText(r))
  {
    if GoodRequest(r, c) && r.now.text.Some? {
      var p, x := "sha256:", sha256(RequestText(r));
      assert (p + x)[..|p|] == p && (p + x)[|p|..] == x;
    }
  }

  lemma ConfigurationBinds(a: RawMessage, b: RawMessage)
    requires Decode(a).Some? && Decode(b).Some?
    ensures Printed(Canon(Decode(a).value)) == Printed(Canon(Decode(b).value))
       <==> ParameterEqual(Decode(a).value, Decode(b).value)
  {
    SameTextIffParameterEqual(a, b);
    WrittenInjective(Printed(Canon(Decode(a).value)), Printed(Canon(Decode(b).value)));
    var x, y := Canon(Decode(a).value), Canon(Decode(b).value);
    MarshalInjective(x, y);
  }

  lemma FixedMembersInjective(a: DiscoveryRequest, x: Json, b: DiscoveryRequest, y: Json)
    requires FixedMembers(a, x) == FixedMembers(b, y)
    ensures a.protocol == b.protocol && a.requestID == b.requestID && a.tenantID == b.tenantID
    ensures a.connectionID == b.connectionID && a.provider == b.provider && a.release == b.release
    ensures a.manifestDigest == b.manifestDigest && a.accountRef == b.accountRef
    ensures a.capabilityRef == b.capabilityRef && a.capabilityDigest == b.capabilityDigest
    ensures Printed(Canon(x)) == Printed(Canon(y))
  {
    var p, q := FixedMembers(a, x), FixedMembers(b, y);
    assert p[0] == q[0] && p[1] == q[1] && p[2] == q[2] && p[3] == q[3] && p[4] == q[4] && p[5] == q[5];
    assert p[6] == q[6] && p[7] == q[7] && p[8] == q[8] && p[9] == q[9] && p[10] == q[10];
  }

  // ---- response pages ----

  datatype DiscoveredResource = DiscoveredResource(id: string, labelText: string, kind: string)

  /** The time of observation is only compared, so its instant is enough. */
  datatype DiscoveryPage = DiscoveryPage(
    protocol: string,
    requestDigest: string,
    observedAt: int,
    resources: Option<seq<DiscoveredResource>>,
    nextCursor: string,
    missingResourceIDs: seq<string>)
  {
    function Found(): seq<string> {
      if resources.None? then []
      else seq(|resources.value|, i requires 0 <= i < |resources.value| => resources.value[i].id)
    }
  }

  predicate GoodResource(r: DiscoveredResource) {
    DiscoveryText(r.id, 2048) && DiscoveryText(r.labelText, 256) && DiscoveryText(r.kind, 128)
  }

  /** The checks of a page that precede those of identities, apart from time. */
  predicate GoodEnvelope(p: DiscoveryPage, r: DiscoveryRequest, c: ActionCapability, sha256: string -> string) {
    && GoodRequest(r, c)
    && p.protocol == PROTOCOL && Some(p.requestDigest) == DiscoveryRequestDigest(r, c, sha256)
    && p.resources.Some? && |p.resources.value| + |p.missingResourceIDs| <= r.limit
    && (p.nextCursor != "" ==> DiscoveryText(p.nextCursor, 4096) && p.nextCursor != r.cursor)
  }

  function Later(a: int, b: int): int {
    if a < b then b else a
  }

  function Earlier(a: int, b: int): int {
    if a < b then a else b
  }

  /** In an exact page every requested identity is reported once, as found or as missing, and nothing else is. */
  predicate GoodIdentities(p: DiscoveryPage, r: DiscoveryRequest)
    requires p.resources.Some?
  {
    && (forall i | 0 <= i < |p.resources.value| :: GoodResource(p.resources.value[i]))
    && if r.resourceIDs.None? then Distinct(p.Found()) && p.missingResourceIDs == []
       else p.nextCursor == "" && multiset(p.Found() + p.missingResourceIDs) == multiset(r.resourceIDs.value)
  }

  /** `DiscoveryPage.Validate`. */
  method ValidatePage(
      p: DiscoveryPage, r: DiscoveryRequest, c: ActionCapability, now: int, sha256: string -> string)
    returns (ok: bool)
    ensures ok <==> && GoodEnvelope(p, r, c, sha256) && GoodIdentities(p, r)
                    && p.observedAt != 0 && now != 0
                    && Later(p.observedAt, r.now.instant) - 30_000_000_000 <= now
                    && now < Earlier(p.observedAt, r.now.instant)
                             + 1_000_000_000 * c.discovery.value.maximumAgeSeconds
  {
    ok := ValidateRequest(r, c);
    if !ok || p.protocol != PROTOCOL || Some(p.requestDigest) != DiscoveryRequestDigest(r, c, sha256)
       || p.resources.None? || |p.resources.value| + |p.missingResourceIDs| > r.limit {
      return false;
    }
    ok := CheckTimes(p.observedAt, r.now.instant, c.discovery.value.maximumAgeSeconds, now);
    if !ok {
      return false;
    }
    if p.nextCursor != "" && (!DiscoveryText(p.nextCursor, 4096) || p.nextCursor == r.cursor) {
      return false;
    }
    ok := ValidateIdentities(p, r);
  }

  /** The checks of times: neither lies too far ahead, and neither is stale. */
  method CheckTimes(observedAt: int, requestedAt: int, maximumAgeSeconds: int, now: int) returns (ok: bool)
    ensures ok <==> && observedAt != 0 && now != 0
                    && Later(observedAt, requestedAt) - 30_000_000_000 <= now
                    && now < Earlier(observedAt, requestedAt) + 1_000_000_000 * maximumAgeSeconds
  {
    var age := maximumAgeSeconds * SECOND;
    return !(now == 0 || observedAt == 0 || requestedAt > now + 30 * SECOND || observedAt > now + 30 * SECOND
             || observedAt + age <= now || requestedAt + age <= now);
  }

  /** The checks of identities in `DiscoveryPage.Validate`: two loops that grow a set, and its comparison. */
  method ValidateIdentities(p: DiscoveryPage, r: DiscoveryRequest) returns (ok: bool)
    requires p.resources.Some?
    requires r.resourceIDs.Some? ==> GoodIDs(r.resourceIDs.value)
    ensures ok <==> GoodIdentities(p, r)
  {
    var found, missing := p.Found(), p.missingResourceIDs;
    var seen;
    ok, seen := CollectFound(p);
    if r.resourceIDs.Some? {
      PartitionIff(found, missing, r.resourceIDs.value);
    }
    if !ok {
      return;
    }
    if r.resourceIDs.None? {
      return |missing| == 0;
    }
    if p.nextCursor != "" {
      return false;
    }
    ok, seen := CollectMissing(found, missing, seen);
    if !ok || |seen| != |r.resourceIDs.value| {
      DistinctSize(r.resourceIDs.value);
      return false;
    }
    ok := AllSeen(r.resourceIDs.value, seen);
    DistinctSize(r.resourceIDs.value);
    if ok {
      SameSizeSubset(SetOf(r.resourceIDs.value), seen);
    }
  }

  method CollectFound(p: DiscoveryPage) returns (ok: bool, seen: set<string>)
    requires p.resources.Some?
    ensures ok <==> Distinct(p.Found())
                    && forall i | 0 <= i < |p.resources.value| :: GoodResource(p.resources.value[i])
    ensures ok ==> seen == SetOf(p.Found())
  {
    var found := p.Found();
    seen := {};
    for i := 0 to |found|
      invariant forall j | 0 <= j < i :: GoodResource(p.resources.value[j])
      invariant SetOf(found[..i]) == seen && Distinct(found[..i])
    {
      Grow(found, i);
      var resource := p.resources.value[i];
      if !DiscoveryText(resource.id, 2048) || !DiscoveryText(resource.labelText, 256)
         || !DiscoveryText(resource.kind, 128) || resource.id in seen {
        PrefixDistinct(found, i + 1);
        return false, {};
      }
      seen := seen + {found[i]};
    }
    assert found[..|found|] == found;
    return true, seen;
  }

  method CollectMissing(found: seq<string>, missing: seq<string>, before: set<string>)
    returns (ok: bool, seen: set<string>)
    requires Distinct(found) && before == SetOf(found)
    ensures ok <==> Distinct(found + missing) && forall i | 0 <= i < |missing| :: DiscoveryText(missing[i], 2048)
    ensures ok ==> seen == SetOf(found + missing)
  {
    var all := found + missing;
    seen := before;
    assert all[..|found|] == found;
    for i := 0 to |missing|
      invariant forall j | 0 <= j < i :: DiscoveryText(missing[j], 2048)
      invariant SetOf(all[..|found| + i]) == seen && Distinct(all[..|found| + i])
    {
      Grow(all, |found| + i);
      if !DiscoveryText(missing[i], 2048) || missing[i] in seen {
        PrefixDistinct(all, |found| + i + 1);
        return false, {};
      }
      seen := seen + {missing[i]};
    }
    assert all[..|all|] == all;
    return true, seen;
  }

  method AllSeen(ids: seq<string>, seen: set<string>) returns (ok: bool)
    ensures ok <==> SetOf(ids) <= seen
  {
    for i := 0 to |ids|
      invariant forall j | 0 <= j < i :: ids[j] in seen
    {
      if ids[i] !in seen {
        assert ids[i] in SetOf(ids);
        return false;
      }
    }
    return true;
  }

  ghost function SetOf<T>(s: seq<T>): set<T> {
    set x | x in s
  }

  lemma Grow<T>(s: seq<T>, i: nat)
    requires i < |s|
    ensures s[..i + 1] == s[..i] + [s[i]]
    ensures SetOf(s[..i + 1]) == SetOf(s[..i]) + {s[i]}
    ensures Distinct(s[..i + 1]) <==> Distinct(s[..i]) && s[i] !in SetOf(s[..i])
  {
    var shorter, longer := s[..i], s[..i + 1];
    assert longer == shorter + [s[i]];
    if Distinct(longer) {
      forall j, k | 0 <= j < k < i ensures shorter[j] != shorter[k] {
        assert longer[j] != longer[k];
      }
      forall j | 0 <= j < i ensures shorter[j] != s[i] {
        assert longer[j] != longer[i];
      }
    }
  }

  lemma PrefixDistinct<T>(s: seq<T>, i: nat)
    requires i <= |s|
    ensures Distinct(s) ==> Distinct(s[..i])
  {
    if Distinct(s) {
      forall j, k | 0 <= j < k < i ensures s[..i][j] != s[..i][k] {
        assert s[j] != s[k];
      }
    }
  }

  lemma {:induction false} DistinctCounts<T>(s: seq<T>)
    ensures Distinct(s) <==> forall x :: multiset(s)[x] <= 1
  {
    if s == [] {
    } else {
      var i := |s| - 1;
      DistinctCounts(s[..i]);
      Grow(s, i);
      assert s[..i + 1] == s;
      assert multiset(s) == multiset(s[..i]) + multiset{s[i]};
      if Distinct(s) {
        assert multiset(s[..i])[s[i]] == 0;
      } else if Distinct(s[..i]) {
        assert s[i] in s[..i];
        assert multiset(s)[s[i]] == 2;
      } else {
        var x :| multiset(s[..i])[x] > 1;
        assert multiset(s)[x] > 1;
      }
    }
  }

  lemma {:induction false} DistinctSize<T>(s: seq<T>)
    requires Distinct(s)
    ensures |SetOf(s)| == |s|
  {
    if s == [] {
    } else {
      var i := |s| - 1;
      Grow(s, i);
      assert s[..i + 1] == s;
      DistinctSize(s[..i]);
    }
  }

  /** Against distinct requested identities, a permutation is a duplicate-free list with the same elements. */
  lemma PermutationIff<T>(all: seq<T>, ids: seq<T>)
    requires Distinct(ids)
    ensures multiset(all) == multiset(ids) <==> Distinct(all) && SetOf(all) == SetOf(ids)
  {
    DistinctCounts(all);
    DistinctCounts(ids);
    if multiset(all) == multiset(ids) {
      forall x ensures x in SetOf(all) <==> x in SetOf(ids) {
        assert x in all <==> x in multiset(all);
        assert x in ids <==> x in multiset(ids);
      }
    }
    if Distinct(all) && SetOf(all) == SetOf(ids) {
      forall x ensures multiset(all)[x] == multiset(ids)[x] {
        assert x in all <==> x in SetOf(all);
        assert x in ids <==> x in SetOf(ids);
        assert x in all <==> x in multiset(all);
        assert x in ids <==> x in multiset(ids);
      }
    }
  }

  /** Found and missing identities are a permutation of the requested ones if and only if they partition them. */
  lemma PartitionIff(found: seq<string>, missing: seq<string>, ids: seq<string>)
    requires GoodIDs(ids)
    ensures multiset(found + missing) == multiset(ids)
       <==> Distinct(found) && Distinct(missing) && SetOf(found) !! SetOf(missing)
            && SetOf(found) + SetOf(missing) == SetOf(ids)
    ensures multiset(found + missing) == multiset(ids)
       <==> Distinct(found + missing) && SetOf(found + missing) == SetOf(ids)
    ensures multiset(found + missing) == multiset(ids)
        ==> forall i | 0 <= i < |missing| :: DiscoveryText(missing[i], 2048)
  {
    var all := found + missing;
    PermutationIff(all, ids);
    DistinctConcat(found, missing);
    assert SetOf(all) == SetOf(found) + SetOf(missing);
    if multiset(all) == multiset(ids) {
      forall i | 0 <= i < |missing| ensures DiscoveryText(missing[i], 2048) {
        assert missing[i] in SetOf(all) && missing[i] in SetOf(ids);
      }
    }
  }

  lemma DistinctConcat<T>(a: seq<T>, b: seq<T>)
    ensures Distinct(a + b) <==> Distinct(a) && Distinct(b) && SetOf(a) !! SetOf(b)
  {
    var c := a + b;
    if Distinct(c) {
      forall j, k | 0 <= j < k < |a| ensures a[j] != a[k] {
        assert c[j] != c[k];
      }
      forall j, k | 0 <= j < k < |b| ensures b[j] != b[k] {
        assert c[|a| + j] != c[|a| + k];
      }
      forall j, k | 0 <= j < |a| && 0 <= k < |b| ensures a[j] != b[k] {
        assert c[j] != c[|a| + k];
      }
    }
    if Distinct(a) && Distinct(b) && SetOf(a) !! SetOf(b) {
      forall j, k | 0 <= j < k < |c| ensures c[j] != c[k] {
        assert c[j] == if j < |a| then a[j] else b[j - |a|];
        assert c[k] == if k < |a| then a[k] else b[k - |a|];
        assert j < |a| <= k ==> a[j] in SetOf(a) && b[k - |a|] in SetOf(b);
      }
    }
  }
}
