/** Request authentication: signed message, time window, and the evicting cache of nonces. Times in nanoseconds. */
module Replay {
  import opened Options
  import opened Texts

  const MINUTE: int := 60_000_000_000
  const WINDOW: int := 2 * MINUTE
  const RETENTION: int := 3 * MINUTE

  // ---- signatures ----

  datatype SignedRequest = SignedRequest(timestamp: string, nonce: string, signature: string, body: string)

  /** What `Signature` feeds to the keyed hash. */
  function Message(timestamp: string, nonce: string, body: string): string {
    timestamp + "\n" + nonce + "\n" + body
  }

  /** `VerifySignature`; `parse` reads an RFC 3339 time, `mac` is the keyed hash in hexadecimal. */
  predicate VerifySignature(r: SignedRequest, now: int, parse: string -> Option<int>, mac: string -> string) {
    && parse(r.timestamp).Some? && InWindow(parse(r.timestamp).value, now)
    && !Blank(r.nonce)
    && "sha256=" + mac(Message(r.timestamp, r.nonce, r.body)) == r.signature
  }

  predicate InWindow(signedAt: int, now: int) {
    now - WINDOW <= signedAt <= now + WINDOW
  }

  /** Header values hold no line feed, so one message stands for one timestamp, nonce and body. */
  lemma MessageInjective(t: string, n: string, b: string, t': string, n': string, b': string)
    requires '\n' !in t && '\n' !in t' && '\n' !in n && '\n' !in n'
    requires Message(t, n, b) == Message(t', n', b')
    ensures t == t' && n == n' && b == b'
  {
    LineInjective(t, n + "\n" + b, t', n' + "\n" + b');
    assert Message(t, n, b) == t + "\n" + (n + "\n" + b);
    assert Message(t', n', b') == t' + "\n" + (n' + "\n" + b');
    LineInjective(n, b, n', b');
  }

  lemma LineInjective(a: string, r: string, a': string, r': string)
    requires '\n' !in a && '\n' !in a'
    ensures a + "\n" + r == a' + "\n" + r' ==> a == a' && r == r'
  {
    var x, y := a + "\n" + r, a' + "\n" + r';
    if x == y {
      assert x[|a|] == '\n' && y[|a'|] == '\n';
      assert forall i | 0 <= i < |a| :: x[i] == a[i];
      assert forall i | 0 <= i < |a'| :: y[i] == a'[i];
      assert |a| == |a'|;
      assert a == x[..|a|] && a' == y[..|a'|];
      assert r == x[|a| + 1..] && r' == y[|a'| + 1..];
    }
  }

  /** Two verified requests that differ at most in their signatures are the same request. */
  lemma OneSignature(
      r: SignedRequest, s: SignedRequest, now: int, later: int, parse: string -> Option<int>, mac: string -> string)
    requires s == r.(signature := s.signature)
    requires VerifySignature(r, now, parse, mac) && VerifySignature(s, later, parse, mac)
    ensures r == s
  {
  }

  /** One signature verifies one request, unless two different messages collide under the keyed hash. */
  lemma SignatureBinds(
      r: SignedRequest, s: SignedRequest, now: int, later: int, parse: string -> Option<int>, mac: string -> string)
    requires '\n' !in r.timestamp && '\n' !in s.timestamp && '\n' !in r.nonce && '\n' !in s.nonce
    requires VerifySignature(r, now, parse, mac) && VerifySignature(s, later, parse, mac)
    requires r.signature == s.signature
    ensures r == s
         || (Message(r.timestamp, r.nonce, r.body) != Message(s.timestamp, s.nonce, s.body)
             && mac(Message(r.timestamp, r.nonce, r.body)) == mac(Message(s.timestamp, s.nonce, s.body)))
  {
    var m, n := Message(r.timestamp, r.nonce, r.body), Message(s.timestamp, s.nonce, s.body);
    var p, x, y := "sha256=", mac(m), mac(n);
    assert x == (p + x)[|p|..] && y == (p + y)[|p|..];
    if m == n {
      MessageInjective(r.timestamp, r.nonce, r.body, s.timestamp, s.nonce, s.body);
    }
  }

  /** A properly signed request is verified from two minutes before to two minutes after its signing time. */
  lemma VerifiedInterval(
      t: string, n: string, b: string, signedAt: int, now: int, parse: string -> Option<int>, mac: string -> string)
    requires parse(t) == Some(signedAt) && exists i :: 0 <= i < |n| && !IsSpace(n[i])
    ensures VerifySignature(SignedRequest(t, n, "sha256=" + mac(t + "\n" + n + "\n" + b), b), now, parse, mac)
       <==> signedAt - 120_000_000_000 <= now <= signedAt + 120_000_000_000
  {
  }

  /** Nothing is verified without a signing time or with a blank nonce. */
  lemma VerifiedIsComplete(r: SignedRequest, now: int, parse: string -> Option<int>, mac: string -> string)
    requires VerifySignature(r, now, parse, mac)
    ensures parse(r.timestamp).Some? && exists i :: 0 <= i < |r.nonce| && !IsSpace(r.nonce[i])
  {
  }

  // ---- the cache ----

  function Evict(seen: map<string, int>, now: int): map<string, int> {
    map n | n in seen && seen[n] >= now - RETENTION :: seen[n]
  }

  /** The section under the lock: evict by one clock reading, record under the next. */
  function Section(seen: map<string, int>, nonce: string, evictAt: int, recordAt: int): (map<string, int>, bool) {
    var kept := Evict(seen, evictAt);
    if nonce in kept || Blank(nonce) then (kept, false) else (kept[nonce := recordAt], true)
  }

  datatype Acceptance = Acceptance(nonce: string, at: int)

  /** The nonce was accepted at `cutoff` or later. */
  predicate Recent(history: seq<Acceptance>, nonce: string, cutoff: int) {
    exists i | 0 <= i < |history| :: history[i].nonce == nonce && history[i].at >= cutoff
  }

  /** The cache holds exactly the nonces accepted since the cutoff, each at its last acceptance. */
  ghost predicate Agrees(seen: map<string, int>, history: seq<Acceptance>, cutoff: int) {
    && (forall n :: n in seen <==> Recent(history, n, cutoff))
    && (forall n | n in seen :: Acceptance(n, seen[n]) in history)
    && (forall i | 0 <= i < |history| :: history[i].nonce in seen ==> history[i].at <= seen[history[i].nonce])
  }

  /** Two acceptances of one nonce lie more than three minutes apart. */
  predicate WellApart(history: seq<Acceptance>) {
    forall i, j | 0 <= i < j < |history| :: history[i].nonce == history[j].nonce
                                            ==> history[j].at - history[i].at > RETENTION
  }

  predicate UpTo(history: seq<Acceptance>, now: int) {
    forall i | 0 <= i < |history| :: history[i].at <= now
  }

  /** The invariant of the cache: it agrees with a history whose acceptances are well apart and that ends at `clock`. */
  ghost predicate Sound(seen: map<string, int>, history: seq<Acceptance>, clock: int, cutoff: int) {
    Agrees(seen, history, cutoff) && WellApart(history) && UpTo(history, clock) && cutoff <= clock - RETENTION
  }

  function Extend(history: seq<Acceptance>, accepted: bool, nonce: string, at: int): seq<Acceptance> {
    if accepted then history + [Acceptance(nonce, at)] else history
  }

  /** One locked section decides as if it knew the whole history, and the cache goes on agreeing with it. */
  lemma SectionRefines(
      seen: map<string, int>, history: seq<Acceptance>, clock: int, cutoff: int,
      nonce: string, evictAt: int, recordAt: int)
    requires Sound(seen, history, clock, cutoff) && clock <= evictAt <= recordAt
    ensures var (after, accepted) := Section(seen, nonce, evictAt, recordAt);
            && (accepted <==> !Blank(nonce) && !Recent(history, nonce, evictAt - RETENTION))
            && Sound(after, Extend(history, accepted, nonce, recordAt), recordAt, evictAt - RETENTION)
  {
    EvictAgrees(seen, history, cutoff, evictAt);
    var (after, accepted) := Section(seen, nonce, evictAt, recordAt);
    if accepted {
      ApartAppend(history, nonce, evictAt, recordAt);
      RecordAgrees(Evict(seen, evictAt), history, evictAt - RETENTION, nonce, recordAt);
    }
  }

  lemma EvictAgrees(seen: map<string, int>, history: seq<Acceptance>, cutoff: int, now: int)
    requires Agrees(seen, history, cutoff) && cutoff <= now - RETENTION
    ensures Agrees(Evict(seen, now), history, now - RETENTION)
  {
    var kept := Evict(seen, now);
    forall n ensures n in kept <==> Recent(history, n, now - RETENTION) {
      if n in kept {
        var i :| 0 <= i < |history| && history[i] == Acceptance(n, seen[n]);
        assert history[i].nonce == n && history[i].at >= now - RETENTION;
      }
      if Recent(history, n, now - RETENTION) {
        var i :| 0 <= i < |history| && history[i].nonce == n && history[i].at >= now - RETENTION;
        assert Recent(history, n, cutoff);
        assert history[i].at <= seen[history[i].nonce];
      }
    }
  }

  lemma RecentAppend(history: seq<Acceptance>, a: Acceptance, nonce: string, cutoff: int)
    ensures Recent(history + [a], nonce, cutoff)
       <==> Recent(history, nonce, cutoff) || (a.nonce == nonce && a.at >= cutoff)
  {
    var longer := history + [a];
    assert longer[|history|] == a;
    assert forall i | 0 <= i < |history| :: longer[i] == history[i];
  }

  lemma ApartAppend(history: seq<Acceptance>, nonce: string, evictAt: int, recordAt: int)
    requires WellApart(history) && evictAt <= recordAt && UpTo(history, recordAt)
    requires !Recent(history, nonce, evictAt - RETENTION)
    ensures WellApart(history + [Acceptance(nonce, recordAt)])
    ensures UpTo(history + [Acceptance(nonce, recordAt)], recordAt)
  {
  }

  lemma RecordAgrees(seen: map<string, int>, history: seq<Acceptance>, cutoff: int, nonce: string, at: int)
    requires Agrees(seen, history, cutoff) && UpTo(history, at) && cutoff <= at
    ensures Agrees(seen[nonce := at], history + [Acceptance(nonce, at)], cutoff)
  {
    var after, longer := seen[nonce := at], history + [Acceptance(nonce, at)];
    forall n ensures n in after <==> Recent(longer, n, cutoff) {
      RecentAppend(history, Acceptance(nonce, at), n, cutoff);
    }
    forall n | n in after ensures Acceptance(n, after[n]) in longer {
      if n == nonce {
        assert longer[|history|] == Acceptance(n, after[n]);
      }
    }
  }

  /** The state of the handler: the cache of nonces, and as ghosts all acceptances and the last eviction. */
  class HTTPHandler {
    var seen: map<string, int>
    ghost var history: seq<Acceptance>
    ghost var clock: int
    ghost var cutoff: int

    ghost predicate Valid()
      reads this
    {
      Sound(seen, history, clock, cutoff)
    }

    constructor (ghost boot: int)
      ensures Valid() && seen == map[] && history == [] && clock == boot
    {
      seen, history, clock, cutoff := map[], [], boot, boot - RETENTION;
    }

    /** `authenticate`, given whether body and identity headers were good, and its three clock readings. */
    method Authenticate(
        identified: bool, r: SignedRequest, verifyAt: int, evictAt: int, recordAt: int,
        parse: string -> Option<int>, mac: string -> string)
      returns (accepted: bool)
      requires Valid()
      requires clock <= evictAt <= recordAt
      modifies this
      ensures Valid()
      ensures accepted <==> identified && VerifySignature(r, verifyAt, parse, mac)
                            && !Recent(old(history), r.nonce, evictAt - RETENTION)
      ensures history == Extend(old(history), accepted, r.nonce, recordAt)
      ensures if identified && VerifySignature(r, verifyAt, parse, mac)
              then (seen, accepted) == Section(old(seen), r.nonce, evictAt, recordAt)
                   && clock == recordAt && cutoff == evictAt - RETENTION
              else seen == old(seen) && clock == old(clock) && cutoff == old(cutoff)
    {
      if !identified || !VerifySignature(r, verifyAt, parse, mac) {
        return false;
      }
      accepted := EnterNonce(r.nonce, evictAt, recordAt);
    }

    /** The section of `authenticate` under the lock. */
    method EnterNonce(nonce: string, evictAt: int, recordAt: int) returns (accepted: bool)
      requires Valid()
      requires clock <= evictAt <= recordAt
      modifies this
      ensures Valid()
      ensures accepted <==> !Blank(nonce) && !Recent(old(history), nonce, evictAt - RETENTION)
      ensures history == Extend(old(history), accepted, nonce, recordAt)
      ensures (seen, accepted) == Section(old(seen), nonce, evictAt, recordAt)
      ensures clock == recordAt && cutoff == evictAt - RETENTION
    {
      SectionRefines(seen, history, clock, cutoff, nonce, evictAt, recordAt);
      EvictOld(evictAt);
      clock, cutoff := recordAt, evictAt - RETENTION;
      accepted := !(nonce in seen || Blank(nonce));
      history := Extend(history, accepted, nonce, recordAt);
      if accepted {
        seen := seen[nonce := recordAt];
      }
    }

    /** The loop that deletes entries recorded before the limit, in any order. */
    method EvictOld(now: int)
      modifies this`seen
      ensures seen == Evict(old(seen), now)
    {
      var limit := now - RETENTION;
      var left := seen.Keys;
      while left != {}
        invariant left <= seen.Keys <= old(seen).Keys
        invariant forall n | n in seen :: seen[n] == old(seen)[n] && (n in left || seen[n] >= limit)
        invariant forall n | n in old(seen) && old(seen)[n] >= limit :: n in seen
        decreases left
      {
        var value :| value in left;
        left := left - {value};
        if seen[value] < limit {
          seen := seen - {value};
        }
      }
    }
  }

  // ---- whole runs ----

  /** One call: the nonce and signing time of its request, and its clock readings before and under the lock. */
  datatype Call = Call(nonce: string, signedAt: int, verifyAt: int, evictAt: int, recordAt: int) {
    predicate Verified() {
      InWindow(signedAt, verifyAt) && !Blank(nonce)
    }
  }

  function SeenAfter(run: seq<Call>): map<string, int> {
    if run == [] then map[] else Serve(SeenAfter(run[..|run| - 1]), run[|run| - 1]).0
  }

  function Serve(seen: map<string, int>, c: Call): (map<string, int>, bool) {
    if c.Verified() then Section(seen, c.nonce, c.evictAt, c.recordAt) else (seen, false)
  }

  /** Is call number `i` of the run accepted? */
  predicate AcceptedAt(run: seq<Call>, i: nat)
    requires i < |run|
  {
    Serve(SeenAfter(run[..i]), run[i]).1
  }

  /** The reference: nothing is ever forgotten, and a nonce is refused for three minutes. */
  function HistoryAfter(run: seq<Call>): seq<Acceptance> {
    if run == [] then [] else HistoryNext(HistoryAfter(run[..|run| - 1]), run[|run| - 1])
  }

  function HistoryNext(history: seq<Acceptance>, c: Call): seq<Acceptance> {
    Extend(history, FreshCall(history, c), c.nonce, c.recordAt)
  }

  predicate FreshCall(history: seq<Acceptance>, c: Call) {
    c.Verified() && !Recent(history, c.nonce, c.evictAt - RETENTION)
  }

  /** The readings under the lock never decrease, from `boot` on. */
  predicate Monotone(boot: int, run: seq<Call>) {
    && (forall i | 0 <= i < |run| :: boot <= run[i].evictAt <= run[i].recordAt)
    && (forall i, j | 0 <= i < j < |run| :: run[i].recordAt <= run[j].evictAt)
  }

  function LastClock(boot: int, run: seq<Call>): int {
    if run == [] then boot
    else if run[|run| - 1].Verified() then run[|run| - 1].recordAt
    else LastClock(boot, run[..|run| - 1])
  }

  function LastCutoff(boot: int, run: seq<Call>): int {
    if run == [] then boot - RETENTION
    else if run[|run| - 1].Verified() then run[|run| - 1].evictAt - RETENTION
    else LastCutoff(boot, run[..|run| - 1])
  }

  lemma {:induction false} LastBounds(boot: int, run: seq<Call>, now: int)
    requires Monotone(boot, run) && boot <= now && forall i | 0 <= i < |run| :: run[i].recordAt <= now
    ensures LastClock(boot, run) <= now && LastCutoff(boot, run) <= now - RETENTION
  {
    if run == [] {
    } else {
      LastBounds(boot, run[..|run| - 1], now);
    }
  }

  /** One verified call on a cache in agreement with its history. */
  lemma CallRefines(seen: map<string, int>, history: seq<Acceptance>, clock: int, cutoff: int, c: Call)
    requires Sound(seen, history, clock, cutoff) && c.Verified() && clock <= c.evictAt <= c.recordAt
    ensures Serve(seen, c).1 <==> FreshCall(history, c)
    ensures Sound(Serve(seen, c).0, HistoryNext(history, c), c.recordAt, c.evictAt - RETENTION)
  {
    SectionRefines(seen, history, clock, cutoff, c.nonce, c.evictAt, c.recordAt);
  }

  lemma NothingSeen(boot: int)
    ensures Sound(map[], [], boot, boot - RETENTION)
  {
  }

  /** After every run the cache agrees with the complete history, whose equal nonces are well apart. */
  lemma {:induction false} RunRefines(boot: int, run: seq<Call>)
    requires Monotone(boot, run)
    ensures Sound(SeenAfter(run), HistoryAfter(run), LastClock(boot, run), LastCutoff(boot, run))
  {
    if run == [] {
      NothingSeen(boot);
    } else {
      var before, c := run[..|run| - 1], run[|run| - 1];
      RunRefines(boot, before);
      assert SeenAfter(run) == Serve(SeenAfter(before), c).0;
      assert HistoryAfter(run) == HistoryNext(HistoryAfter(before), c);
      if c.Verified() {
        LastBounds(boot, before, c.evictAt);
        CallRefines(SeenAfter(before), HistoryAfter(before), LastClock(boot, before), LastCutoff(boot, before), c);
      }
    }
  }

  /** Every call of every run is decided as the complete history would decide it. */
  lemma OutcomesAgree(boot: int, run: seq<Call>, i: nat)
    requires Monotone(boot, run) && i < |run|
    ensures AcceptedAt(run, i) <==> FreshCall(HistoryAfter(run[..i]), run[i])
  {
    var before, c := run[..i], run[i];
    RunRefines(boot, before);
    if c.Verified() {
      LastBounds(boot, before, c.evictAt);
      CallRefines(SeenAfter(before), HistoryAfter(before), LastClock(boot, before), LastCutoff(boot, before), c);
    }
  }

  lemma {:induction false} AcceptedIsRecorded(boot: int, run: seq<Call>, i: nat)
    requires Monotone(boot, run) && i < |run| && AcceptedAt(run, i)
    ensures Acceptance(run[i].nonce, run[i].recordAt) in HistoryAfter(run)
  {
    var before := run[..|run| - 1];
    if i < |before| {
      assert run[..i] == before[..i];
      AcceptedIsRecorded(boot, before, i);
    } else {
      OutcomesAgree(boot, run, i);
    }
  }

  /** In every run, a nonce is accepted again only when its earlier record is more than three minutes old. */
  lemma AcceptancesApart(boot: int, run: seq<Call>, i: nat, j: nat)
    requires Monotone(boot, run) && i < j < |run| && run[i].nonce == run[j].nonce
    requires AcceptedAt(run, i) && AcceptedAt(run, j)
    ensures run[j].evictAt > run[i].recordAt + 180_000_000_000
  {
    var before := run[..j];
    assert before[..i] == run[..i];
    AcceptedIsRecorded(boot, before, i);
    OutcomesAgree(boot, run, j);
    var h := HistoryAfter(before);
    var k :| 0 <= k < |h| && h[k] == Acceptance(run[i].nonce, run[i].recordAt);
    assert h[k].nonce == run[j].nonce;
  }

  /** A request accepted twice was signed more than a minute, less any wait for the lock, ahead of the first record. */
  lemma ReplayBound(boot: int, run: seq<Call>, i: nat, j: nat)
    requires Monotone(boot, run) && i < j < |run|
    requires run[i].nonce == run[j].nonce && run[i].signedAt == run[j].signedAt
    requires AcceptedAt(run, i) && AcceptedAt(run, j)
    ensures run[i].signedAt > run[i].recordAt + MINUTE - (run[j].evictAt - run[j].verifyAt)
  {
    AcceptancesApart(boot, run, i, j);
  }

  /** No call waits longer than `w` between verifying its signature and evicting under the lock. */
  predicate Waits(run: seq<Call>, w: int) {
    forall k | 0 <= k < |run| :: run[k].verifyAt <= run[k].evictAt <= run[k].verifyAt + w
  }

  /** A request signed at most a minute, less the longest wait, ahead of its first record is accepted at most once. */
  lemma SingleAcceptance(boot: int, run: seq<Call>, w: int, i: nat, j: nat)
    requires Monotone(boot, run) && Waits(run, w) && i < j < |run|
    requires run[i].nonce == run[j].nonce && run[i].signedAt == run[j].signedAt
    requires AcceptedAt(run, i) && run[i].signedAt <= run[i].recordAt + MINUTE - w
    ensures !AcceptedAt(run, j)
  {
    if AcceptedAt(run, j) {
      ReplayBound(boot, run, i, j);
    }
  }

  /** The run goes on in `longer`, where call number `j` presents the last request of `run` again and is accepted. */
  predicate ReplaysLast(boot: int, run: seq<Call>, w: int, longer: seq<Call>, j: nat)
    requires run != []
  {
    && run <= longer && Monotone(boot, longer) && Waits(longer, w)
    && |run| <= j < |longer|
    && longer[j].nonce == run[|run| - 1].nonce && longer[j].signedAt == run[|run| - 1].signedAt
    && AcceptedAt(longer, j)
  }

  /**
   * The bound is sharp: some continuation accepts the last request again exactly when it was signed more than a minute,
   * less the longest wait, ahead of its record.
   */
  lemma ReplayPossibleIff(boot: int, run: seq<Call>, w: int)
    requires Monotone(boot, run) && Waits(run, w) && run != [] && AcceptedAt(run, |run| - 1)
    ensures (exists longer, j :: ReplaysLast(boot, run, w, longer, j))
       <==> run[|run| - 1].signedAt > run[|run| - 1].recordAt + MINUTE - w
  {
    var i := |run| - 1;
    forall longer, j | ReplaysLast(boot, run, w, longer, j)
      ensures run[i].signedAt > run[i].recordAt + MINUTE - w
    {
      assert longer[i] == run[i] && longer[..i] == run[..i];
      ReplayBound(boot, longer, i, j);
    }
    if run[i].signedAt > run[i].recordAt + MINUTE - w {
      ReplayAfterRetention(boot, run, w);
    }
  }

  /** The replay enters as soon as its nonce may be evicted, and verifies just before, within the time window. */
  lemma ReplayAfterRetention(boot: int, run: seq<Call>, w: int)
    requires Monotone(boot, run) && Waits(run, w) && run != [] && AcceptedAt(run, |run| - 1)
    requires run[|run| - 1].signedAt > run[|run| - 1].recordAt + MINUTE - w
    ensures exists longer, j :: ReplaysLast(boot, run, w, longer, j)
  {
    var c := run[|run| - 1];
    var at := c.recordAt + RETENTION + 1;
    var verifyAt := if c.signedAt + WINDOW < at then c.signedAt + WINDOW else at;
    var replay := Call(c.nonce, c.signedAt, verifyAt, at, at);
    var longer := run + [replay];
    assert longer[..|run|] == run && longer[|run|] == replay;
    RunRefines(boot, run);
    LastBounds(boot, run, c.recordAt);
    assert !Recent(HistoryAfter(run), c.nonce, at - RETENTION);
    OutcomesAgree(boot, longer, |run|);
    assert ReplaysLast(boot, run, w, longer, |run|);
  }
}
