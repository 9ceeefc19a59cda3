/** The pinned client: failover, the verified directory with its cache and self-heal, the
    verified relay, and the signed bootstrap list. The network's answers are parameters, and
    one call runs at a time; `ClientRuns` interleaves them. */
module Client {
  import opened Wrappers
  import opened Discovery
  import ClientRuns

  type Entry = string

  /** A response body: what it parses to as an envelope, and its bare text. */
  datatype Body = Body(envelope: Wire, text: string)

  datatype Reply = Unreachable | BrokenBody(status: nat) | Response(status: nat, body: Body)

  type Network = string -> Reply

  datatype Reader = Reader(digest: string -> string,
                           readEntries: string -> Option<seq<Entry>>,
                           readList: string -> Option<seq<string>>)

  datatype ClientError =
    | NoEndpoint | AllUnreachable | BadStatus(status: nat) | ReadFailed
    | NotAnEnvelope | Rejected(why: VerifyError) | BadEntries
    | NoPinnedKey | BadList | NoUsableEndpoints

  const HTTP_OK: nat := 200

  // ---------------------------------------------------------------- failover

  /** The endpoint `i` places after `start` around the ring. */
  function RingAt(eps: seq<string>, start: nat, i: nat): string
    requires eps != []
  {
    eps[(start + i) % |eps|]
  }

  /** The first endpoint that answers, from `start` around the ring, skipping the first `i`. */
  function FirstReply(eps: seq<string>, start: nat, i: nat, net: Network): (r: Option<(nat, Reply)>)
    requires i <= |eps|
    ensures r.Some? ==> r.value.0 < |eps| && r.value.1 == net(eps[r.value.0]) && !r.value.1.Unreachable?
    ensures eps != [] ==> (r.None? <==> forall j :: i <= j < |eps| ==> net(RingAt(eps, start, j)).Unreachable?)
    decreases |eps| - i
  {
    if i == |eps| then None
    else
      var reply := net(RingAt(eps, start, i));
      if reply.Unreachable? then FirstReply(eps, start, i + 1, net) else Some(((start + i) % |eps|, reply))
  }

  /** Failover gives up only if every endpoint is unreachable, wherever it starts. */
  lemma NoReplyExactly(eps: seq<string>, start: nat, net: Network)
    ensures FirstReply(eps, start, 0, net).None? <==> forall ep :: ep in eps ==> net(ep).Unreachable?
  {
    if eps != [] && FirstReply(eps, start, 0, net).None? {
      forall ep | ep in eps ensures net(ep).Unreachable? {
        var k :| 0 <= k < |eps| && eps[k] == ep;
        var j := RingPosition(start, k, |eps|);
        assert net(RingAt(eps, start, j)).Unreachable?;
      }
    }
  }

  /** Going around the ring reaches every position. */
  lemma RingPosition(start: nat, k: nat, n: nat) returns (j: nat)
    requires k < n
    ensures j < n && (start + j) % n == k
  {
    var q, s := start / n, start % n;
    j := if k >= s then k - s else k - s + n;
    assert start + j == (if k >= s then q else q + 1) * n + k;
    RemainderIsUnique(start + j, n, if k >= s then q else q + 1, k);
  }

  lemma RemainderIsUnique(x: nat, n: nat, q: nat, m: nat)
    requires x == q * n + m && m < n
    ensures x % n == m
  {
    var q', m' := x / n, x % n;
    assert x == q' * n + m';
    assert (q - q') * n == m' - m && (q' - q) * n == m - m';
    if q > q' {
      AtLeastOnce(q - q', n);
    } else if q' > q {
      AtLeastOnce(q' - q, n);
    }
  }

  lemma AtLeastOnce(a: nat, n: nat)
    requires a >= 1
    ensures a * n >= n
  {
    assert a * n == (a - 1) * n + n;
  }

  function Usable(list: seq<string>): seq<string> {
    if list == [] then []
    else if list[0] != "" then [list[0]] + Usable(list[1..])
    else Usable(list[1..])
  }

  // ------------------------------------------------------ what replies are worth

  /** What a client reads and trusts: fixed while it runs. */
  datatype Trusted = Trusted(reader: Reader, key: Option<Key>)

  /** The serial at which the envelope, if it is one, passes under the pinned key. */
  function Passing(t: Trusted, typ: string, log: SignatureLog, envelope: Wire, now: int, floor: nat): Option<nat> {
    if t.key.None? then None
    else ClientRuns.Passing(ClientRuns.Setting(t.reader.digest, t.key.value, typ), log, envelope, now, floor)
  }

  function EntriesOf(t: Trusted, log: SignatureLog, body: Body, now: int, floor: nat): Option<seq<Entry>> {
    if Passing(t, TYPE_DIRECTORY, log, body.envelope, now, floor).Some? then t.reader.readEntries(body.envelope.value.payload)
    else None
  }

  function Cached(t: Trusted, log: SignatureLog, cache: Option<Body>, now: int, floor: nat): Option<seq<Entry>> {
    if cache.Some? then EntriesOf(t, log, cache.value, now, floor) else None
  }

  /** What a response that was received is worth: a pinned client takes the entries of a
      verified envelope and nothing else, an unpinned one the bare text; an error status falls
      back to the cache. */
  function Received(t: Trusted, log: SignatureLog, cache: Option<Body>, reply: Reply, now: int, floor: nat): Option<seq<Entry>>
    requires !reply.Unreachable?
  {
    if reply.status != HTTP_OK then Cached(t, log, cache, now, floor)
    else if reply.BrokenBody? then None
    else if t.key.Some? then EntriesOf(t, log, reply.body, now, floor)
    else t.reader.readEntries(reply.body.text)
  }

  /** The usable endpoints of a bootstrap list that is accepted above `floor`. */
  function ListOf(t: Trusted, log: SignatureLog, body: Body, now: int, floor: nat): Option<seq<string>> {
    if Passing(t, TYPE_BOOTSTRAP, log, body.envelope, now, floor).None? then None
    else
      var list := t.reader.readList(body.envelope.value.payload);
      if list.Some? && Usable(list.value) != [] then Some(Usable(list.value)) else None
  }

  /** The list in a reply from the out-of-band channel, if it is one and is accepted. */
  function Offered(t: Trusted, log: SignatureLog, reply: Reply, now: int, floor: nat): Option<seq<string>> {
    if reply.Response? && reply.status == HTTP_OK then ListOf(t, log, reply.body, now, floor) else None
  }

  /** The floor once the cache has been looked at. */
  function FloorAfter(t: Trusted, log: SignatureLog, cache: Option<Body>, now: int, floor: nat): nat {
    if cache.Some? && Passing(t, TYPE_DIRECTORY, log, cache.value.envelope, now, floor).Some? then
      Passing(t, TYPE_DIRECTORY, log, cache.value.envelope, now, floor).value
    else floor
  }

  /** What a client that no endpoint answered can still get once its cache has failed it: what
      the first endpoint of an offered list that answers over `net` serves. */
  function Retried(t: Trusted, log: SignatureLog, offered: Option<seq<string>>, net: Network, now: int, floor: nat): Option<seq<Entry>> {
    if offered.None? || FirstReply(offered.value, 0, 0, net).None? then None
    else Received(t, log, None, FirstReply(offered.value, 0, 0, net).value.1, now, floor)
  }

  function RetriedCache(t: Trusted, log: SignatureLog, offered: Option<seq<string>>, net: Network, now: int, floor: nat,
                        writes: bool, cache: Option<Body>): Option<Body>
  {
    if offered.None? || FirstReply(offered.value, 0, 0, net).None? then cache
    else CacheAfter(t, log, FirstReply(offered.value, 0, 0, net).value.1, now, floor, writes, cache)
  }

  /** The endpoint used next, once an offered list was tried over `net`. */
  function RetriedAt(offered: Option<seq<string>>, net: Network, current: nat): nat {
    if offered.None? then current
    else if FirstReply(offered.value, 0, 0, net).None? then 0
    else FirstReply(offered.value, 0, 0, net).value.0
  }

  // ------------------------------------------------------------ said outright

  /** `reply` comes from `eps[k]`, and nobody before it around the ring from `start` answers. */
  predicate FirstAnswer(eps: seq<string>, start: nat, net: Network, k: nat, reply: Reply) {
    && !reply.Unreachable?
    && exists i :: 0 <= i < |eps| && (start + i) % |eps| == k && AnswersAt(eps, start, net, i, reply)
  }

  predicate AnswersAt(eps: seq<string>, start: nat, net: Network, i: nat, reply: Reply)
    requires i < |eps|
  {
    net(RingAt(eps, start, i)) == reply && forall j :: 0 <= j < i ==> net(RingAt(eps, start, j)).Unreachable?
  }

  predicate Silent(eps: seq<string>, net: Network) {
    forall ep :: ep in eps ==> net(ep).Unreachable?
  }

  /** The client pins a key, and that key signed the body's envelope as an object of the type, no
      older than the floor and not expired. */
  predicate Accepts(t: Trusted, typ: string, log: SignatureLog, body: Body, now: int, floor: nat) {
    && t.key.Some? && body.envelope.Some?
    && ClientRuns.Genuine(ClientRuns.Setting(t.reader.digest, t.key.value, typ), log, body.envelope.value)
    && floor <= body.envelope.value.serial && now <= body.envelope.value.expiresAt * SECOND
  }

  /** An accepted directory that reads as `entries`. */
  predicate Lists(t: Trusted, log: SignatureLog, body: Body, now: int, floor: nat, entries: seq<Entry>) {
    Accepts(t, "directory", log, body, now, floor) && t.reader.readEntries(body.envelope.value.payload) == Some(entries)
  }

  /** Some accepted directory above `floor` reads as `entries` and has the serial `after`. */
  ghost predicate Genuine(t: Trusted, log: SignatureLog, now: int, floor: nat, after: nat, entries: seq<Entry>) {
    exists body: Body :: Lists(t, log, body, now, floor, entries) && body.envelope.value.serial == after
  }

  /** What is genuine above a floor is genuine above any lower one. */
  lemma GenuineBelow(t: Trusted, log: SignatureLog, now: int, floor: nat, lower: nat, after: nat, entries: seq<Entry>)
    requires Genuine(t, log, now, floor, after, entries) && lower <= floor
    ensures Genuine(t, log, now, lower, after, entries)
  {
    var body: Body :| Lists(t, log, body, now, floor, entries) && body.envelope.value.serial == after;
    assert Lists(t, log, body, now, lower, entries);
  }

  lemma ServedIsGenuine(t: Trusted, log: SignatureLog, body: Body, now: int, floor: nat, after: nat, entries: seq<Entry>)
    requires Passing(t, TYPE_DIRECTORY, log, body.envelope, now, floor) == Some(after)
    requires t.reader.readEntries(body.envelope.value.payload) == Some(entries)
    ensures Genuine(t, log, now, floor, after, entries)
  {
    AcceptsExactly(t, TYPE_DIRECTORY, log, body, now, floor);
    assert Lists(t, log, body, now, floor, entries);
  }

  /** A whole reply of status 200 that says `entries`: as an accepted directory to a pinned client,
      in its bare text to any other. */
  predicate Says(t: Trusted, log: SignatureLog, reply: Reply, now: int, floor: nat, entries: seq<Entry>) {
    && reply.Response? && reply.status == 200
    && (if t.key.Some? then Lists(t, log, reply.body, now, floor, entries)
        else t.reader.readEntries(reply.body.text) == Some(entries))
  }

  predicate CacheSays(t: Trusted, log: SignatureLog, kept: Option<Body>, now: int, floor: nat, entries: seq<Entry>) {
    kept.Some? && Lists(t, log, kept.value, now, floor, entries)
  }

  /** What an endpoint that answers gets the client: what it says itself, or with an error status
      what the cache says. */
  predicate Obtains(t: Trusted, log: SignatureLog, kept: Option<Body>, reply: Reply, now: int, floor: nat, entries: seq<Entry>)
    requires !reply.Unreachable?
  {
    if reply.status == 200 then Says(t, log, reply, now, floor, entries) else CacheSays(t, log, kept, now, floor, entries)
  }

  /** A whole reply of status 200 with an accepted bootstrap list, whose non-empty names are `eps`. */
  predicate Replaces(t: Trusted, log: SignatureLog, reply: Reply, now: int, floor: nat, eps: seq<string>) {
    && reply.Response? && reply.status == 200 && Accepts(t, "bootstrap", log, reply.body, now, floor)
    && var list := t.reader.readList(reply.body.envelope.value.payload);
       list.Some? && Usable(list.value) == eps && eps != []
  }

  /** The body that a reply puts in the cache file, if the client keeps one. */
  function CacheAfter(t: Trusted, log: SignatureLog, reply: Reply, now: int, floor: nat, writes: bool, cache: Option<Body>): Option<Body> {
    if writes && reply.Response? && reply.status == 200 && Accepts(t, "directory", log, reply.body, now, floor) then Some(reply.body)
    else cache
  }

  /** The floor once the cache was looked at: an accepted directory raises it, readable or not. */
  predicate FloorSeen(t: Trusted, log: SignatureLog, kept: Option<Body>, now: int, floor: nat, seen: nat) {
    if kept.Some? && Accepts(t, "directory", log, kept.value, now, floor) then seen == kept.value.envelope.value.serial
    else seen == floor
  }

  lemma {:induction false} UsableSplits(a: seq<string>, b: seq<string>)
    ensures Usable(a + b) == Usable(a) + Usable(b)
  {
    if a == [] {
      assert a + b == b;
    } else {
      assert (a + b)[1..] == a[1..] + b;
      UsableSplits(a[1..], b);
    }
  }

  /** The usable endpoints are the non-empty names, in the order of the list. */
  lemma {:induction false} UsableAreNonEmpty(list: seq<string>, name: string)
    ensures name in Usable(list) <==> name in list && name != ""
    ensures "" !in list ==> Usable(list) == list
  {
    if list != [] {
      UsableAreNonEmpty(list[1..], name);
    }
  }

  lemma AcceptsExactly(t: Trusted, typ: string, log: SignatureLog, body: Body, now: int, floor: nat)
    ensures Passing(t, typ, log, body.envelope, now, floor).Some? <==> Accepts(t, typ, log, body, now, floor)
    ensures Accepts(t, typ, log, body, now, floor) ==> Passing(t, typ, log, body.envelope, now, floor) == Some(body.envelope.value.serial)
  {
    if t.key.Some? {
      ClientRuns.PassingExactly(ClientRuns.Setting(t.reader.digest, t.key.value, typ), log, body.envelope, now, floor);
    }
  }

  lemma EntriesExactly(t: Trusted, log: SignatureLog, body: Body, now: int, floor: nat, entries: seq<Entry>)
    ensures EntriesOf(t, log, body, now, floor) == Some(entries) <==> Lists(t, log, body, now, floor, entries)
  {
    AcceptsExactly(t, "directory", log, body, now, floor);
    hide Passing, Accepts;
  }

  lemma CachedExactly(t: Trusted, log: SignatureLog, kept: Option<Body>, now: int, floor: nat)
    ensures forall entries :: Cached(t, log, kept, now, floor) == Some(entries) <==> CacheSays(t, log, kept, now, floor, entries)
    ensures FloorSeen(t, log, kept, now, floor, FloorAfter(t, log, kept, now, floor))
  {
    if kept.Some? {
      AcceptsExactly(t, "directory", log, kept.value, now, floor);
      forall entries ensures EntriesOf(t, log, kept.value, now, floor) == Some(entries) <==> Lists(t, log, kept.value, now, floor, entries) {
        EntriesExactly(t, log, kept.value, now, floor, entries);
      }
    }
    hide Passing, Accepts, EntriesOf, Lists;
  }

  lemma ReceivedExactly(t: Trusted, log: SignatureLog, kept: Option<Body>, reply: Reply, now: int, floor: nat)
    requires !reply.Unreachable?
    ensures forall entries :: Received(t, log, kept, reply, now, floor) == Some(entries) <==> Obtains(t, log, kept, reply, now, floor, entries)
  {
    CachedExactly(t, log, kept, now, floor);
    hide Cached, CacheSays, EntriesOf, Lists;
    if reply.Response? {
      forall entries ensures EntriesOf(t, log, reply.body, now, floor) == Some(entries) <==> Lists(t, log, reply.body, now, floor, entries) {
        EntriesExactly(t, log, reply.body, now, floor, entries);
      }
    }
  }

  lemma OfferedExactly(t: Trusted, log: SignatureLog, reply: Reply, now: int, floor: nat)
    ensures forall eps :: Offered(t, log, reply, now, floor) == Some(eps) <==> Replaces(t, log, reply, now, floor, eps)
  {
    if reply.Response? {
      AcceptsExactly(t, "bootstrap", log, reply.body, now, floor);
    }
    hide Passing, Accepts, Usable;
  }

  lemma {:induction false} FirstFrom(eps: seq<string>, start: nat, i: nat, at: nat, net: Network)
    requires i <= at < |eps| && !net(RingAt(eps, start, at)).Unreachable?
    requires forall j :: i <= j < at ==> net(RingAt(eps, start, j)).Unreachable?
    ensures FirstReply(eps, start, i, net) == Some(((start + at) % |eps|, net(RingAt(eps, start, at))))
    decreases at - i
  {
    if i < at {
      assert net(RingAt(eps, start, i)).Unreachable?;
      FirstFrom(eps, start, i + 1, at, net);
    }
  }

  /** Some endpoint answers first, or none at all. */
  lemma {:induction false} SomeAnswer(eps: seq<string>, start: nat, i: nat, net: Network) returns (at: nat)
    requires i <= |eps| && FirstReply(eps, start, i, net).Some?
    ensures i <= at < |eps| && !net(RingAt(eps, start, at)).Unreachable?
    ensures forall j :: i <= j < at ==> net(RingAt(eps, start, j)).Unreachable?
    decreases |eps| - i
  {
    if net(RingAt(eps, start, i)).Unreachable? {
      at := SomeAnswer(eps, start, i + 1, net);
    } else {
      at := i;
    }
  }

  lemma FirstExactly(eps: seq<string>, start: nat, net: Network)
    ensures forall k: nat, reply :: FirstAnswer(eps, start, net, k, reply) <==> FirstReply(eps, start, 0, net) == Some((k, reply))
    ensures Silent(eps, net) <==> FirstReply(eps, start, 0, net) == None
  {
    NoReplyExactly(eps, start, net);
    forall k: nat, reply ensures FirstAnswer(eps, start, net, k, reply) <==> FirstReply(eps, start, 0, net) == Some((k, reply)) {
      FirstIs(eps, start, net, k, reply);
    }
  }

  lemma FirstIs(eps: seq<string>, start: nat, net: Network, k: nat, reply: Reply)
    ensures FirstAnswer(eps, start, net, k, reply) <==> FirstReply(eps, start, 0, net) == Some((k, reply))
  {
    if FirstAnswer(eps, start, net, k, reply) {
      var i :| 0 <= i < |eps| && (start + i) % |eps| == k && AnswersAt(eps, start, net, i, reply);
      FirstFrom(eps, start, 0, i, net);
    }
    if FirstReply(eps, start, 0, net) == Some((k, reply)) {
      var at := SomeAnswer(eps, start, 0, net);
      FirstFrom(eps, start, 0, at, net);
      assert AnswersAt(eps, start, net, at, reply);
    }
  }

  /** Everything the answer to one call depends on: what the client trusts, the cache file it reads,
      and its floors and endpoints before the call. */
  datatype Before = Before(t: Trusted, log: SignatureLog, now: int, kept: Option<Body>, floor: nat, listFloor: nat,
                           endpoints: seq<string>, current: nat, cache: Option<Body>, writes: bool, healing: bool)

  lemma UnpinnedTrustsNothing(t: Trusted, log: SignatureLog, kept: Option<Body>, bootstrap: Reply, now: int, floor: nat, listFloor: nat)
    requires t.key.None?
    ensures Cached(t, log, kept, now, floor) == None && FloorAfter(t, log, kept, now, floor) == floor
    ensures Offered(t, log, bootstrap, now, listFloor) == None
  {}

  /** A cache that serves nothing is as good as none. */
  lemma ReceivedWithout(t: Trusted, log: SignatureLog, kept: Option<Body>, reply: Reply, now: int, floor: nat)
    requires !reply.Unreachable? && Cached(t, log, kept, now, floor).None?
    ensures Received(t, log, kept, reply, now, floor) == Received(t, log, None, reply, now, floor)
    ensures reply.status != HTTP_OK ==> Received(t, log, kept, reply, now, floor).None?
  {}

  /** What one call leaves: the entries, if it served any, whether they are flagged stale, the
      endpoints, the one to be used next, and the cache file. */
  datatype Outcome = Outcome(served: Option<seq<Entry>>, stale: bool, endpoints: seq<string>, current: nat, cache: Option<Body>)

  /** Endpoint `k` answered `reply`, and it decides. */
  ghost predicate Live(b: Before, k: nat, reply: Reply, o: Outcome)
    requires !reply.Unreachable?
  {
    && (forall entries :: o.served == Some(entries) <==> Obtains(b.t, b.log, b.kept, reply, b.now, b.floor, entries))
    && (o.stale <==> o.served.Some? && reply.status != 200)
    && o.endpoints == b.endpoints && o.current == k
    && o.cache == CacheAfter(b.t, b.log, reply, b.now, b.floor, b.writes, b.cache)
  }

  /** Nobody answered, and the cache serves. */
  ghost predicate FromCache(b: Before, o: Outcome) {
    && o.served.Some? && CacheSays(b.t, b.log, b.kept, b.now, b.floor, o.served.value)
    && o.stale && o.endpoints == b.endpoints && o.current == b.current && o.cache == b.cache
  }

  /** Nobody answered, the cache does not serve, and no new list is accepted. */
  ghost predicate GivesUp(b: Before, bootstrap: Reply, o: Outcome) {
    && (forall entries :: !CacheSays(b.t, b.log, b.kept, b.now, b.floor, entries))
    && (forall eps :: b.healing ==> !Replaces(b.t, b.log, bootstrap, b.now, b.listFloor, eps))
    && o == Outcome(None, false, b.endpoints, b.current, b.cache)
  }

  /** Nobody answered, the cache does not serve, and the accepted list is in use: its first endpoint
      that answers `healed` decides, on its own. */
  ghost predicate Healed(b: Before, bootstrap: Reply, healed: Network, o: Outcome) {
    && (forall entries :: !CacheSays(b.t, b.log, b.kept, b.now, b.floor, entries))
    && b.healing && Replaces(b.t, b.log, bootstrap, b.now, b.listFloor, o.endpoints)
    && !o.stale
    && (Silent(o.endpoints, healed) ==> o.served == None && o.current == 0 && o.cache == b.cache)
    && (forall k: nat, reply, seen: nat ::
          FirstAnswer(o.endpoints, 0, healed, k, reply) && FloorSeen(b.t, b.log, b.kept, b.now, b.floor, seen) ==>
            && (forall entries :: o.served == Some(entries) <==> Says(b.t, b.log, reply, b.now, seen, entries))
            && o.current == k
            && o.cache == CacheAfter(b.t, b.log, reply, b.now, seen, b.writes, b.cache))
  }

  lemma LiveExactly(b: Before, k: nat, reply: Reply, o: Outcome)
    requires !reply.Unreachable? && o.served == Received(b.t, b.log, b.kept, reply, b.now, b.floor)
    requires (o.stale <==> o.served.Some? && reply.status != HTTP_OK) && o.endpoints == b.endpoints && o.current == k
    requires o.cache == CacheAfter(b.t, b.log, reply, b.now, b.floor, b.writes, b.cache)
    ensures Live(b, k, reply, o)
  {
    ReceivedExactly(b.t, b.log, b.kept, reply, b.now, b.floor);
    hide Obtains, Received, CacheAfter;
  }

  lemma CacheDecides(b: Before)
    ensures forall entries :: Cached(b.t, b.log, b.kept, b.now, b.floor) == Some(entries) <==>
                              CacheSays(b.t, b.log, b.kept, b.now, b.floor, entries)
    ensures Cached(b.t, b.log, b.kept, b.now, b.floor).None? <==>
              forall entries :: !CacheSays(b.t, b.log, b.kept, b.now, b.floor, entries)
  {
    CachedExactly(b.t, b.log, b.kept, b.now, b.floor);
    hide Cached, CacheSays;
    if Cached(b.t, b.log, b.kept, b.now, b.floor).Some? {
      assert CacheSays(b.t, b.log, b.kept, b.now, b.floor, Cached(b.t, b.log, b.kept, b.now, b.floor).value);
    }
  }

  /** Without a cache to fall back on, or with one that serves nothing, a reply counts for what it says. */
  lemma ReceivedAlone(t: Trusted, log: SignatureLog, reply: Reply, now: int, floor: nat)
    requires !reply.Unreachable?
    ensures forall entries :: Received(t, log, None, reply, now, floor) == Some(entries) <==> Says(t, log, reply, now, floor, entries)
  {
    ReceivedExactly(t, log, None, reply, now, floor);
    hide Says, Received;
  }

  lemma FloorSeenIs(b: Before, seen: nat)
    requires FloorSeen(b.t, b.log, b.kept, b.now, b.floor, seen)
    ensures seen == FloorAfter(b.t, b.log, b.kept, b.now, b.floor)
  {
    CachedExactly(b.t, b.log, b.kept, b.now, b.floor);
    hide FloorAfter, Accepts;
  }

  lemma HealedExactly(b: Before, bootstrap: Reply, healed: Network, offered: seq<string>, o: Outcome)
    requires Cached(b.t, b.log, b.kept, b.now, b.floor).None? && b.healing
    requires Offered(b.t, b.log, bootstrap, b.now, b.listFloor) == Some(offered)
    requires var floor := FloorAfter(b.t, b.log, b.kept, b.now, b.floor);
      o == Outcome(Retried(b.t, b.log, Some(offered), healed, b.now, floor), false, offered,
                   RetriedAt(Some(offered), healed, b.current),
                   RetriedCache(b.t, b.log, Some(offered), healed, b.now, floor, b.writes, b.cache))
    ensures Healed(b, bootstrap, healed, o)
  {
    CacheDecides(b);
    OfferedExactly(b.t, b.log, bootstrap, b.now, b.listFloor);
    FirstExactly(offered, 0, healed);
    hide FirstReply, FirstAnswer, Offered, Replaces, Cached, CacheSays, Silent, Received, Says, CacheAfter, FloorAfter, FloorSeen;
    forall k: nat, reply, seen: nat | FirstAnswer(o.endpoints, 0, healed, k, reply) && FloorSeen(b.t, b.log, b.kept, b.now, b.floor, seen)
      ensures && (forall entries :: o.served == Some(entries) <==> Says(b.t, b.log, reply, b.now, seen, entries))
              && o.current == k
              && o.cache == CacheAfter(b.t, b.log, reply, b.now, seen, b.writes, b.cache)
    {
      FloorSeenIs(b, seen);
      ReceivedAlone(b.t, b.log, reply, b.now, seen);
    }
  }

  lemma GivesUpExactly(b: Before, bootstrap: Reply, o: Outcome)
    requires Cached(b.t, b.log, b.kept, b.now, b.floor).None?
    requires b.healing ==> Offered(b.t, b.log, bootstrap, b.now, b.listFloor).None?
    requires o == Outcome(None, false, b.endpoints, b.current, b.cache)
    ensures GivesUp(b, bootstrap, o)
  {
    CacheDecides(b);
    OfferedExactly(b.t, b.log, bootstrap, b.now, b.listFloor);
    hide Cached, CacheSays, Offered, Replaces;
  }

  lemma UnreachedExactly(b: Before, bootstrap: Reply, healed: Network, o: Outcome)
    requires var cached := Cached(b.t, b.log, b.kept, b.now, b.floor);
      var offered := if b.healing then Offered(b.t, b.log, bootstrap, b.now, b.listFloor) else None;
      var floor := FloorAfter(b.t, b.log, b.kept, b.now, b.floor);
      if cached.Some? then o == Outcome(cached, true, b.endpoints, b.current, b.cache)
      else o == Outcome(Retried(b.t, b.log, offered, healed, b.now, floor), false, offered.UnwrapOr(b.endpoints),
                        RetriedAt(offered, healed, b.current),
                        RetriedCache(b.t, b.log, offered, healed, b.now, floor, b.writes, b.cache))
    ensures FromCache(b, o) || GivesUp(b, bootstrap, o) || Healed(b, bootstrap, healed, o)
  {
    CacheDecides(b);
    hide Cached, CacheSays, Offered, FloorAfter, FirstReply, Healed, Received, CacheAfter;
    if Cached(b.t, b.log, b.kept, b.now, b.floor).None? {
      if b.healing && Offered(b.t, b.log, bootstrap, b.now, b.listFloor).Some? {
        HealedExactly(b, bootstrap, healed, Offered(b.t, b.log, bootstrap, b.now, b.listFloor).value, o);
      } else {
        GivesUpExactly(b, bootstrap, o);
      }
    }
  }

  class PinnedClient {
    const reader: Reader
    var endpoints: seq<string>
    var current: nat
    var pinnedKey: Option<Key>
    var dirFloor: nat
    var relayFloor: nat
    var bootstrapFloor: nat
    var caching: bool
    /** The cache file, if it can be read. */
    var cache: Option<Body>
    var stale: bool
    var healing: bool

    constructor (reader: Reader, endpoints: seq<string>)
      ensures this.reader == reader && this.endpoints == Usable(endpoints) && current == 0
      ensures dirFloor == relayFloor == bootstrapFloor == 0 && pinnedKey == None && cache == None && !caching && !stale && !healing
    {
      this.reader := reader;
      this.endpoints := Usable(endpoints);
      current, pinnedKey, dirFloor, relayFloor, bootstrapFloor := 0, None, 0, 0, 0;
      caching, cache, stale, healing := false, None, false, false;
    }

    /** What one call finds. */
    ghost function Found(log: SignatureLog, now: int, writable: bool): Before
      reads this
    {
      Before(Trust(), log, now, Kept(), dirFloor, bootstrapFloor, endpoints, current, cache, caching && writable, healing)
    }

    /** What a call that answered `r` leaves. */
    ghost function Leaves(r: Result<seq<Entry>, ClientError>): Outcome
      reads this
    {
      Outcome(r.ToOption(), stale, endpoints, current, cache)
    }

    function Trust(): Trusted
      reads this`pinnedKey
    {
      Trusted(reader, pinnedKey)
    }

    function Kept(): Option<Body>
      reads this`caching, this`cache
    {
      if caching then cache else None
    }

    method Attempt(net: Network) returns (r: Result<Reply, ClientError>)
      modifies this`current
      ensures var first := FirstReply(endpoints, old(current), 0, net);
        if endpoints == [] then r == Err(NoEndpoint) && current == old(current)
        else if first.None? then r == Err(AllUnreachable) && current == old(current)
        else current == first.value.0 && r == Ok(first.value.1)
    {
      var start, eps := current, endpoints;
      if |eps| == 0 {
        return Err(NoEndpoint);
      }
      var i := 0;
      while i < |eps|
        invariant 0 <= i <= |eps| && current == start
        invariant FirstReply(eps, start, 0, net) == FirstReply(eps, start, i, net)
      {
        var idx := (start + i) % |eps|;
        var reply := net(eps[idx]);
        assert reply == net(RingAt(eps, start, i));
        if !reply.Unreachable? {
          current := idx;
          return Ok(reply);
        }
        i := i + 1;
      }
      return Err(AllUnreachable);
    }

    /** Exactly a fetch of the runs that nothing interrupts. */
    method VerifyDirectory(body: Body, log: SignatureLog, now: int) returns (r: Result<string, ClientError>)
      requires pinnedKey.Some?
      modifies this`dirFloor
      ensures r.Ok? <==> Passing(Trust(), TYPE_DIRECTORY, log, body.envelope, now, old(dirFloor)).Some?
      ensures r.Ok? ==> r.value == body.envelope.value.payload
                        && Some(dirFloor) == Passing(Trust(), TYPE_DIRECTORY, log, body.envelope, now, old(dirFloor))
      ensures r.Err? ==> dirFloor == old(dirFloor)
      ensures r == Err(NotAnEnvelope) <==> body.envelope.None?
      ensures dirFloor >= old(dirFloor)
    {
      if body.envelope.None? {
        return Err(NotAnEnvelope);
      }
      var env := body.envelope.value;
      var floor := dirFloor;
      var v := Verify(reader.digest, log, env, pinnedKey.value, TYPE_DIRECTORY, now, floor);
      if v.Err? {
        return Err(Rejected(v.error));
      }
      if env.serial > dirFloor {
        dirFloor := env.serial;
      }
      return Ok(v.value);
    }

    method VerifyRelay(body: Body, log: SignatureLog, now: int) returns (r: Result<string, ClientError>)
      requires pinnedKey.Some?
      modifies this`relayFloor
      ensures r.Ok? <==> Passing(Trust(), TYPE_RELAY, log, body.envelope, now, old(relayFloor)).Some?
      ensures r.Ok? ==> r.value == body.envelope.value.payload
                        && Some(relayFloor) == Passing(Trust(), TYPE_RELAY, log, body.envelope, now, old(relayFloor))
      ensures r.Err? ==> relayFloor == old(relayFloor)
      ensures r == Err(NotAnEnvelope) <==> body.envelope.None?
    {
      if body.envelope.None? {
        return Err(NotAnEnvelope);
      }
      var env := body.envelope.value;
      var floor := relayFloor;
      var v := Verify(reader.digest, log, env, pinnedKey.value, TYPE_RELAY, now, floor);
      if v.Err? {
        return Err(Rejected(v.error));
      }
      if env.serial > relayFloor {
        relayFloor := env.serial;
      }
      return Ok(v.value);
    }

    /** The cache serves exactly what still verifies, and says so by the stale flag. */
    method DirectoryFromCache(log: SignatureLog, now: int) returns (r: Option<seq<Entry>>)
      modifies this`dirFloor, this`stale
      ensures r == Cached(Trust(), log, old(Kept()), now, old(dirFloor))
      ensures dirFloor >= old(dirFloor)
      ensures r.Some? ==> stale && Genuine(Trust(), log, now, old(dirFloor), dirFloor, r.value)
      ensures r.None? ==> stale == old(stale)
      ensures dirFloor == FloorAfter(Trust(), log, Kept(), now, old(dirFloor))
      ensures Cached(Trust(), log, Kept(), now, dirFloor) == r
    {
      if !caching || pinnedKey.None? || cache.None? {
        return None;
      }
      var payload := VerifyDirectory(cache.value, log, now);
      if payload.Err? {
        return None;
      }
      var entries := reader.readEntries(payload.value);
      if entries.None? {
        return None;
      }
      ServedIsGenuine(Trust(), log, cache.value, now, old(dirFloor), dirFloor, entries.value);
      stale := true;
      return entries;
    }

    /** An accepted list replaces the endpoints with its usable ones and sets the floor to its
        serial; a refused one changes nothing. */
    method ApplyBootstrap(body: Body, log: SignatureLog, now: int) returns (r: Result<(), ClientError>)
      modifies this`bootstrapFloor, this`endpoints, this`current
      ensures r.Ok? <==> ListOf(Trust(), log, body, now, old(bootstrapFloor)).Some?
      ensures r.Ok? ==> Some(endpoints) == ListOf(Trust(), log, body, now, old(bootstrapFloor)) && current == 0
                        && bootstrapFloor == body.envelope.value.serial >= old(bootstrapFloor)
      ensures r.Err? ==> endpoints == old(endpoints) && current == old(current) && bootstrapFloor == old(bootstrapFloor)
    {
      if pinnedKey.None? {
        return Err(NoPinnedKey);
      }
      if body.envelope.None? {
        return Err(NotAnEnvelope);
      }
      var env := body.envelope.value;
      var floor := bootstrapFloor;
      var v := Verify(reader.digest, log, env, pinnedKey.value, TYPE_BOOTSTRAP, now, floor);
      if v.Err? {
        return Err(Rejected(v.error));
      }
      var list := reader.readList(v.value);
      if list.None? {
        return Err(BadList);
      }
      var eps := Usable(list.value);
      if |eps| == 0 {
        return Err(NoUsableEndpoints);
      }
      if env.serial > bootstrapFloor {
        bootstrapFloor := env.serial;
      }
      endpoints := eps;
      current := 0;
      return Ok(());
    }

    method RefreshFromBootstrap(reply: Reply, log: SignatureLog, now: int) returns (ok: bool)
      modifies this`bootstrapFloor, this`endpoints, this`current
      ensures ok <==> Offered(Trust(), log, reply, now, old(bootstrapFloor)).Some?
      ensures ok ==> Some(endpoints) == Offered(Trust(), log, reply, now, old(bootstrapFloor)) && current == 0
                     && bootstrapFloor == reply.body.envelope.value.serial >= old(bootstrapFloor)
      ensures !ok ==> endpoints == old(endpoints) && current == old(current) && bootstrapFloor == old(bootstrapFloor)
    {
      if !reply.Response? || reply.status != HTTP_OK {
        return false;
      }
      var applied := ApplyBootstrap(reply.body, log, now);
      return applied.Ok?;
    }

    /** The live half. A received body that does not verify is never replaced by the cache. */
    method FromReply(reply: Reply, log: SignatureLog, now: int, writable: bool) returns (r: Result<seq<Entry>, ClientError>)
      requires !reply.Unreachable? && !stale
      modifies this`dirFloor, this`stale, this`cache
      ensures dirFloor >= old(dirFloor)
      ensures r.ToOption() == Received(Trust(), log, old(Kept()), reply, now, old(dirFloor))
      ensures forall entries :: r == Ok(entries) <==> Obtains(Trust(), log, old(Kept()), reply, now, old(dirFloor), entries)
      ensures stale <==> r.Ok? && reply.status != HTTP_OK
      ensures r.Ok? && pinnedKey.Some? ==> Genuine(Trust(), log, now, old(dirFloor), dirFloor, r.value)
      ensures pinnedKey.None? ==> dirFloor == old(dirFloor) && cache == old(cache) && !stale
      ensures cache == CacheAfter(Trust(), log, reply, now, old(dirFloor), caching && writable, old(cache))
    {
      ReceivedExactly(Trust(), log, Kept(), reply, now, dirFloor);
      if reply.Response? {
        AcceptsExactly(Trust(), "directory", log, reply.body, now, dirFloor);
      }
      assert pinnedKey.None? ==> forall typ, body, floor :: !Accepts(Trust(), typ, log, body, now, floor);
      hide Obtains, Accepts;
      var status := reply.status;
      if status != HTTP_OK {
        var cached := DirectoryFromCache(log, now);
        if cached.Some? {
          return Ok(cached.value);
        }
        return Err(BadStatus(status));
      }
      if reply.BrokenBody? {
        return Err(ReadFailed);
      }
      var text := reply.body.text;
      if pinnedKey.Some? {
        var payload := VerifyDirectory(reply.body, log, now);
        if payload.Err? {
          return Err(payload.error);
        }
        text := payload.value;
        if caching && writable {
          cache := Some(reply.body);
        }
      }
      var entries := reader.readEntries(text);
      if entries.None? {
        return Err(BadEntries);
      }
      if pinnedKey.Some? {
        ServedIsGenuine(Trust(), log, reply.body, now, old(dirFloor), dirFloor, entries.value);
      }
      return Ok(entries.value);
    }

    /** The endpoints that healing would put in use. */
    function NewList(bootstrap: Reply, log: SignatureLog, now: int, floor: nat): Option<seq<string>>
      reads this`healing, this`pinnedKey
    {
      if healing then Offered(Trust(), log, bootstrap, now, floor) else None
    }

    /** Refresh the endpoints from the bootstrap list, if there is one, and try once more. */
    method Heal(failed: Result<Reply, ClientError>, bootstrap: Reply, healed: Network, log: SignatureLog, now: int)
      returns (reply: Result<Reply, ClientError>)
      requires failed.Err?
      modifies this`bootstrapFloor, this`endpoints, this`current
      ensures bootstrapFloor >= old(bootstrapFloor)
      ensures var offered := NewList(bootstrap, log, now, old(bootstrapFloor));
        if offered.None? then
          reply == failed && endpoints == old(endpoints) && current == old(current) && bootstrapFloor == old(bootstrapFloor)
        else
          && Some(endpoints) == offered && bootstrapFloor == bootstrap.body.envelope.value.serial
          && (reply.Ok? <==> FirstReply(endpoints, 0, 0, healed).Some?)
          && (reply.Ok? ==> reply.value == FirstReply(endpoints, 0, 0, healed).value.1)
      ensures current == RetriedAt(NewList(bootstrap, log, now, old(bootstrapFloor)), healed, old(current))
    {
      reply := failed;
      if healing {
        var refreshed := RefreshFromBootstrap(bootstrap, log, now);
        if refreshed {
          reply := Attempt(healed);
        }
      }
    }

    /** The cache serves nothing: what is left is one more try after healing. */
    method Retry(failed: Result<Reply, ClientError>, bootstrap: Reply, healed: Network,
                 log: SignatureLog, now: int, writable: bool)
      returns (r: Result<seq<Entry>, ClientError>)
      requires failed.Err? && !stale && Cached(Trust(), log, Kept(), now, dirFloor).None?
      modifies this`bootstrapFloor, this`endpoints, this`current, this`dirFloor, this`stale, this`cache
      ensures dirFloor >= old(dirFloor) && bootstrapFloor >= old(bootstrapFloor) && !stale
      ensures var offered := NewList(bootstrap, log, now, old(bootstrapFloor));
        && endpoints == offered.UnwrapOr(old(endpoints)) && current == RetriedAt(offered, healed, old(current))
        && r.ToOption() == Retried(Trust(), log, offered, healed, now, old(dirFloor))
        && cache == RetriedCache(Trust(), log, offered, healed, now, old(dirFloor), caching && writable, old(cache))
      ensures pinnedKey.Some? && r.Ok? ==> Genuine(Trust(), log, now, old(dirFloor), dirFloor, r.value)
      ensures pinnedKey.None? ==>
                && dirFloor == old(dirFloor) && bootstrapFloor == old(bootstrapFloor)
                && endpoints == old(endpoints) && cache == old(cache)
    {
      if pinnedKey.None? {
        UnpinnedTrustsNothing(Trust(), log, Kept(), bootstrap, now, dirFloor, bootstrapFloor);
      }
      hide ClientRuns.Passing, Obtains, CacheAfter, Received, Cached, Genuine, FirstReply, Offered, RetriedAt;
      var reply := Heal(failed, bootstrap, healed, log, now);
      if reply.Err? {
        return Err(reply.error);
      }
      ReceivedWithout(Trust(), log, Kept(), reply.value, now, dirFloor);
      r := FromReply(reply.value, log, now, writable);
    }

    /** No endpoint answered: the verified cache, or one more try after healing. */
    method Unreached(failed: Result<Reply, ClientError>, bootstrap: Reply, healed: Network,
                     log: SignatureLog, now: int, writable: bool)
      returns (r: Result<seq<Entry>, ClientError>)
      requires failed.Err? && !stale
      modifies this`bootstrapFloor, this`endpoints, this`current, this`dirFloor, this`stale, this`cache
      ensures dirFloor >= old(dirFloor) && bootstrapFloor >= old(bootstrapFloor)
      ensures Cached(Trust(), log, old(Kept()), now, old(dirFloor)).Some? ==>
                && stale && r.ToOption() == Cached(Trust(), log, old(Kept()), now, old(dirFloor))
                && endpoints == old(endpoints) && current == old(current)
      ensures Cached(Trust(), log, old(Kept()), now, old(dirFloor)).None? ==>
                && !stale && endpoints == NewList(bootstrap, log, now, old(bootstrapFloor)).UnwrapOr(old(endpoints))
                && current == RetriedAt(NewList(bootstrap, log, now, old(bootstrapFloor)), healed, old(current))
                && r.ToOption() == Retried(Trust(), log, NewList(bootstrap, log, now, old(bootstrapFloor)), healed, now,
                                           FloorAfter(Trust(), log, old(Kept()), now, old(dirFloor)))
                && cache == RetriedCache(Trust(), log, NewList(bootstrap, log, now, old(bootstrapFloor)), healed, now,
                                         FloorAfter(Trust(), log, old(Kept()), now, old(dirFloor)), caching && writable, old(cache))
      ensures Cached(Trust(), log, old(Kept()), now, old(dirFloor)).Some? ==> cache == old(cache)
      ensures pinnedKey.Some? && r.Ok? ==> Genuine(Trust(), log, now, old(dirFloor), dirFloor, r.value)
      ensures pinnedKey.None? ==>
                && dirFloor == old(dirFloor) && bootstrapFloor == old(bootstrapFloor)
                && endpoints == old(endpoints) && cache == old(cache) && !stale
    {
      if pinnedKey.None? {
        UnpinnedTrustsNothing(Trust(), log, Kept(), bootstrap, now, dirFloor, bootstrapFloor);
      }
      hide ClientRuns.Passing, CacheAfter, Received, Cached, Genuine, FirstReply, Offered, FloorAfter, Retried, RetriedCache,
           RetriedAt;
      var cached := DirectoryFromCache(log, now);
      if cached.Some? {
        return Ok(cached.value);
      }
      ghost var floor := dirFloor;
      r := Retry(failed, bootstrap, healed, log, now, writable);
      if r.Ok? && pinnedKey.Some? {
        GenuineBelow(Trust(), log, now, floor, old(dirFloor), dirFloor, r.value);
      }
    }

    /** The directory, live if an endpoint answers, else from the cache, else live after healing
        the endpoints. Whatever way it came, a pinned client serves only what verifies at or
        above the floor it had before the call. */
    method DirectoryFor(net: Network, bootstrap: Reply, healed: Network, log: SignatureLog, now: int, writable: bool)
      returns (r: Result<seq<Entry>, ClientError>)
      modifies this
      ensures pinnedKey == old(pinnedKey) && healing == old(healing) && caching == old(caching)
      ensures relayFloor == old(relayFloor)
      ensures dirFloor >= old(dirFloor) && bootstrapFloor >= old(bootstrapFloor)
      // The first endpoint around the ring that answers decides.
      ensures forall k: nat, reply :: FirstAnswer(old(endpoints), old(current), net, k, reply) ==>
                Live(old(Found(log, now, writable)), k, reply, Leaves(r))
      // Nobody answers: the cache decides, or else the new list, or else nothing is served.
      ensures Silent(old(endpoints), net) ==>
                || FromCache(old(Found(log, now, writable)), Leaves(r))
                || GivesUp(old(Found(log, now, writable)), bootstrap, Leaves(r))
                || Healed(old(Found(log, now, writable)), bootstrap, healed, Leaves(r))
      ensures pinnedKey.Some? && r.Ok? ==> Genuine(Trust(), log, now, old(dirFloor), dirFloor, r.value)
      ensures pinnedKey.None? ==>
                && dirFloor == old(dirFloor) && bootstrapFloor == old(bootstrapFloor)
                && endpoints == old(endpoints) && cache == old(cache) && !stale
    {
      ghost var b := Found(log, now, writable);
      FirstExactly(endpoints, current, net);
      hide ClientRuns.Passing, FirstReply, RingAt, Offered, FirstAnswer, Silent, Cached, Received, Obtains, CacheAfter,
           Retried, RetriedCache, RetriedAt, FloorAfter, Live, FromCache, GivesUp, Healed, Genuine;
      stale := false;
      var reply := Attempt(net);
      if reply.Ok? {
        r := FromReply(reply.value, log, now, writable);
        LiveExactly(b, current, reply.value, Leaves(r));
      } else {
        r := Unreached(reply, bootstrap, healed, log, now, writable);
        UnreachedExactly(b, bootstrap, healed, Leaves(r));
      }
    }
  }
}
