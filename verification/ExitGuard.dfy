/** The protection an exit applies before it serves a requester: policy gates, the two
    limiters, and the concurrency ledger with its once-only release functions. */
module ExitGuard {
  import opened Wrappers
  import opened Trust
  import Ledger = SlotLedger
  import TokenBucket
  import RateLimit
  import Bandwidth

  // ------------------------------------------------------------- block lists

  /** An address, v4 and v6 in one numbering; a block of them is a range. */
  type IP = nat

  datatype Net = Net(first: IP, last: IP)

  /** Address syntax, lower case, and the ranges an exit must not dial. */
  datatype Addressing = Addressing(lower: string -> string,
                                   parseIP: string -> Option<IP>,
                                   parseCIDR: string -> Option<Net>,
                                   disallowed: IP -> bool)

  /** Lower case, less one trailing dot. */
  function Normalize(a: Addressing, host: string): string {
    var l := a.lower(host);
    if l != [] && l[|l| - 1] == '.' then l[..|l| - 1] else l
  }

  /** The host is a blocked domain, or lies under one. */
  predicate DomainBlocked(domains: set<string>, h: string) {
    exists k :: 0 <= k <= |h| && Label(h, k) in domains && (k == 0 || h[k - 1] == '.')
  }

  function Label(h: string, k: int): string
    requires 0 <= k <= |h|
  {
    h[k..]
  }

  /** Blocking a domain blocks it and its subdomains, and nothing else. */
  lemma BlocksSubdomainsOnly(domains: set<string>, h: string)
    ensures DomainBlocked(domains, h)
       <==> exists d :: d in domains && (h == d || (|h| > |d| && h[|h| - |d| - 1..] == "." + d))
  {
    if DomainBlocked(domains, h) {
      var k :| 0 <= k <= |h| && Label(h, k) in domains && (k == 0 || h[k - 1] == '.');
      var d := Label(h, k);
      if k == 0 {
        assert h == d;
      } else {
        assert h[k - 1..] == "." + d;
      }
    }
    if d :| d in domains && (h == d || (|h| > |d| && h[|h| - |d| - 1..] == "." + d)) {
      var k := |h| - |d|;
      if h == d {
        assert Label(h, 0) == d;
      } else {
        assert h[k - 1..][0] == '.' && h[k - 1..][1..] == d;
        assert Label(h, k) == d;
      }
    }
  }

  predicate NetBlocked(nets: set<Net>, ip: IP) {
    exists n :: n in nets && n.first <= ip <= n.last
  }

  // ------------------------------------------------------------------ policy

  datatype Policy = Policy(scope: Scope, minReputation: int, blockedPorts: set<int>, blockedDomains: set<string>,
                           maxConns: int, maxConnsPerRequester: int,
                           ratePerSec: real, rateBurst: real, bytesPerSec: real, byteBurst: real,
                           allowPrivate: bool)

  datatype Request = Request(requester: string, tier: Tier, reputation: int, host: string, port: int)

  datatype Denial =
    | Untrusted | LowReputation | BlockedPort | BlockedDomain | BlockedPrivate
    | RateLimited | BandwidthExceeded | AtCapacity(which: Ledger.Full)

  /** A release function: the first call frees the slot, later calls do nothing. */
  class Slot {
    const requester: string
    var done: bool

    constructor (requester: string)
      ensures this.requester == requester && !done
    {
      this.requester := requester;
      done := false;
    }
  }

  ghost function Grants(slots: seq<Slot>): seq<Ledger.Grant>
    reads slots
  {
    seq(|slots|, i requires 0 <= i < |slots| reads slots => Ledger.Grant(slots[i].requester, slots[i].done))
  }

  class Guard {
    const policy: Policy
    const addressing: Addressing
    var active: int
    var perReq: map<string, int>
    const reqLimiter: RateLimit.Limiter?
    const bwLimiter: Bandwidth.Limiter?
    var domains: set<string>
    var nets: set<Net>
    /** Every slot ever granted, oldest first. */
    ghost var issued: seq<Slot>

    ghost predicate Valid()
      reads this
    {
      forall i, j :: 0 <= i < j < |issued| ==> issued[i] != issued[j]
    }

    ghost function View(): Ledger.State
      reads this, issued
    {
      Ledger.State(active, perReq, Grants(issued))
    }

    function Caps(): Ledger.Caps {
      Ledger.Caps(policy.maxConns, policy.maxConnsPerRequester)
    }

    constructor (policy: Policy, addressing: Addressing)
      ensures Valid() && View() == Ledger.EMPTY && this.policy == policy && this.addressing == addressing
      ensures reqLimiter != null <==> policy.ratePerSec > 0.0
      ensures reqLimiter != null ==>
                && fresh(reqLimiter) && reqLimiter.buckets == map[]
                && reqLimiter.config.rate == policy.ratePerSec
                && reqLimiter.config.burst == if policy.rateBurst <= 0.0 then policy.ratePerSec else policy.rateBurst
      ensures bwLimiter != null <==> policy.bytesPerSec > 0.0
      ensures bwLimiter != null ==>
                && fresh(bwLimiter) && bwLimiter.buckets == map[]
                && bwLimiter.config.rate == policy.bytesPerSec
                && bwLimiter.config.burst == if policy.byteBurst <= 0.0 then policy.bytesPerSec else policy.byteBurst
      ensures domains == BlockedNames(addressing, policy.blockedDomains)
      ensures nets == BlockedNets(addressing, policy.blockedDomains)
    {
      this.policy, this.addressing := policy, addressing;
      active, perReq, issued := 0, map[], [];
      domains, nets := {}, {};
      if policy.ratePerSec > 0.0 {
        reqLimiter := new RateLimit.Limiter(policy.ratePerSec, Burst(policy.rateBurst, policy.ratePerSec));
      } else {
        reqLimiter := null;
      }
      if policy.bytesPerSec > 0.0 {
        bwLimiter := new Bandwidth.Limiter(policy.bytesPerSec, Burst(policy.byteBurst, policy.bytesPerSec));
      } else {
        bwLimiter := null;
      }
      new;
      domains, nets := ParseBlockSet(addressing, policy.blockedDomains);
    }

    method SetBlockedDomains(raw: set<string>)
      modifies this`domains, this`nets
      ensures domains == BlockedNames(addressing, raw) && nets == BlockedNets(addressing, raw)
    {
      domains, nets := ParseBlockSet(addressing, raw);
    }

    predicate HostBlocked(host: string)
      reads this
    {
      match addressing.parseIP(host)
      case Some(ip) => NetBlocked(nets, ip)
      case None => DomainBlocked(domains, Normalize(addressing, host))
    }

    method IsHostBlocked(host: string) returns (blocked: bool)
      ensures blocked <==> HostBlocked(host)
    {
      var ip := addressing.parseIP(host);
      if ip.Some? {
        var todo := nets;
        while todo != {}
          invariant todo <= nets && forall n :: n in nets - todo ==> !(n.first <= ip.value <= n.last)
          decreases todo
        {
          var n :| n in todo;
          if n.first <= ip.value <= n.last {
            return true;
          }
          todo := todo - {n};
        }
        return false;
      }
      var name := Normalize(addressing, host);
      var h := name;
      ghost var at := 0;
      while true
        invariant 0 <= at <= |name| && h == Label(name, at) && (at == 0 || name[at - 1] == '.')
        invariant forall k :: 0 <= k < at && (k == 0 || name[k - 1] == '.') ==> Label(name, k) !in domains
        decreases |h|
      {
        if h in domains {
          return true;
        }
        var dot := IndexDot(h);
        if dot < 0 {
          assert forall j :: at <= j < |name| ==> name[j] == h[j - at];
          return false;
        }
        assert forall j :: at <= j < at + dot ==> name[j] == h[j - at];
        h := h[dot + 1..];
        at := at + dot + 1;
      }
    }

    predicate PolicyDenies(req: Request, why: Denial)
      reads this
    {
      if !policy.scope.Allows(req.tier) then why == Untrusted
      else if req.reputation < policy.minReputation then why == LowReputation
      else if req.port in policy.blockedPorts then why == BlockedPort
      else if HostBlocked(req.host) then why == BlockedDomain
      else if !policy.allowPrivate && addressing.parseIP(req.host).Some? && addressing.disallowed(addressing.parseIP(req.host).value)
        then why == BlockedPrivate
      else false
    }

    ghost predicate PolicyAdmits(req: Request)
      reads this
    {
      forall why :: !PolicyDenies(req, why)
    }

    /** The tier is within the scope: any tier when open, endorsed or better when conservative. */
    predicate InScope(tier: Tier) {
      policy.scope == Open || tier >= 1
    }

    /** An address lies in a blocked range; a name is a blocked domain or ends in a dot and one. */
    ghost predicate Listed(host: string)
      reads this
    {
      var ip := addressing.parseIP(host);
      var name := Normalize(addressing, host);
      if ip.Some? then exists n :: n in nets && n.first <= ip.value <= n.last
      else exists d :: d in domains && (name == d || (|name| > |d| && name[|name| - |d| - 1..] == "." + d))
    }

    /** The target is an address literal in a private range, and those may not be dialled. */
    predicate Private(host: string) {
      !policy.allowPrivate && addressing.parseIP(host).Some? && addressing.disallowed(addressing.parseIP(host).value)
    }

    /** Policy admits a request if and only if its tier is in scope, its reputation is not too low,
        its port is not blocked, its host is not listed and its target not private; and what it
        denies it denies for the first of these reasons. */
    lemma PolicyAdmitsExactly(req: Request)
      ensures PolicyAdmits(req) <==>
                && InScope(req.tier) && req.reputation >= policy.minReputation && req.port !in policy.blockedPorts
                && !Listed(req.host) && !Private(req.host)
      ensures PolicyDenies(req, Untrusted) <==> !InScope(req.tier)
      ensures PolicyDenies(req, LowReputation) <==> InScope(req.tier) && req.reputation < policy.minReputation
      ensures PolicyDenies(req, BlockedPort) <==>
                InScope(req.tier) && req.reputation >= policy.minReputation && req.port in policy.blockedPorts
      ensures PolicyDenies(req, BlockedDomain) <==>
                && InScope(req.tier) && req.reputation >= policy.minReputation && req.port !in policy.blockedPorts
                && Listed(req.host)
      ensures PolicyDenies(req, BlockedPrivate) <==>
                && InScope(req.tier) && req.reputation >= policy.minReputation && req.port !in policy.blockedPorts
                && !Listed(req.host) && Private(req.host)
      ensures forall why :: PolicyDenies(req, why) ==>
                why.Untrusted? || why.LowReputation? || why.BlockedPort? || why.BlockedDomain? || why.BlockedPrivate?
    {
      BlocksSubdomainsOnly(domains, Normalize(addressing, req.host));
      assert HostBlocked(req.host) <==> Listed(req.host);
      hide HostBlocked, Listed;
      assert PolicyAdmits(req) ==>
        && !PolicyDenies(req, Untrusted) && !PolicyDenies(req, LowReputation) && !PolicyDenies(req, BlockedPort)
        && !PolicyDenies(req, BlockedDomain) && !PolicyDenies(req, BlockedPrivate);
    }

    method CheckPolicy(req: Request) returns (denial: Option<Denial>)
      ensures denial.Some? ==> PolicyDenies(req, denial.value)
      ensures denial.None? ==> PolicyAdmits(req)
    {
      if !policy.scope.Allows(req.tier) {
        return Some(Untrusted);
      }
      if req.reputation < policy.minReputation {
        return Some(LowReputation);
      }
      if req.port in policy.blockedPorts {
        return Some(BlockedPort);
      }
      var blocked := IsHostBlocked(req.host);
      if blocked {
        return Some(BlockedDomain);
      }
      if !policy.allowPrivate {
        var ip := addressing.parseIP(req.host);
        if ip.Some? && addressing.disallowed(ip.value) {
          return Some(BlockedPrivate);
        }
      }
      return None;
    }

    /** Does the request-rate limiter, if any, admit the requester now? */
    ghost predicate RateAdmits(requester: string, now: real)
      reads reqLimiter
    {
      reqLimiter != null ==> RateLimit.AllowStep(reqLimiter.config, reqLimiter.buckets, requester, now, true).0
    }

    ghost predicate WithinBytes(requester: string, now: real)
      reads bwLimiter
    {
      bwLimiter != null ==> !Bandwidth.OverStep(bwLimiter.config, bwLimiter.buckets, requester, now).0
    }

    /** The lock-protected region: one acquisition step of the ledger. */
    method AcquireSlot(requester: string) returns (r: Result<Slot, Denial>)
      requires Valid()
      modifies this`active, this`perReq, this`issued
      ensures Valid()
      ensures View() == Ledger.Acquire(Caps(), old(View()), requester).1
      ensures r.Ok? <==> Ledger.Acquire(Caps(), old(View()), requester).0.None?
      ensures r.Ok? ==> fresh(r.value) && issued == old(issued) + [r.value]
                        && r.value.requester == requester && !r.value.done
      ensures r.Err? ==> r == Err(AtCapacity(Ledger.Acquire(Caps(), old(View()), requester).0.value))
                         && issued == old(issued)
    {
      if policy.maxConns > 0 && active >= policy.maxConns {
        return Err(AtCapacity(Ledger.TooManyConns));
      }
      var held := if requester in perReq then perReq[requester] else 0;
      if policy.maxConnsPerRequester > 0 && held >= policy.maxConnsPerRequester {
        return Err(AtCapacity(Ledger.TooManyRequesterConns));
      }
      active := active + 1;
      perReq := perReq[requester := held + 1];
      var slot := new Slot(requester);
      issued := issued + [slot];
      return Ok(slot);
    }

    /** The two limiters, in order: the second is not asked when the first refuses. */
    method CheckLimits(requester: string, now: real) returns (denial: Option<Denial>)
      modifies reqLimiter, bwLimiter
      ensures denial == (if !old(RateAdmits(requester, now)) then Some(RateLimited)
                         else if !old(WithinBytes(requester, now)) then Some(BandwidthExceeded)
                         else None)
      ensures reqLimiter != null ==>
                reqLimiter.buckets == RateLimit.AllowStep(reqLimiter.config, old(reqLimiter.buckets), requester, now, true).1
      ensures bwLimiter != null ==>
                bwLimiter.buckets == if old(RateAdmits(requester, now))
                                     then Bandwidth.OverStep(bwLimiter.config, old(bwLimiter.buckets), requester, now).1
                                     else old(bwLimiter.buckets)
    {
      if reqLimiter != null {
        var ok := reqLimiter.Allow(requester, now);
        if !ok {
          return Some(RateLimited);
        }
      }
      if bwLimiter != null {
        var over := bwLimiter.Over(requester, now);
        if over {
          return Some(BandwidthExceeded);
        }
      }
      return None;
    }

    /** A slot is granted exactly when policy, both limiters and the caps agree; the ledger then
        takes exactly one step, and otherwise none. A request that policy denies costs its
        requester no token. */
    method Authorize(req: Request, now: real) returns (r: Result<Slot, Denial>)
      requires Valid()
      modifies this`active, this`perReq, this`issued, reqLimiter, bwLimiter
      ensures Valid()
      ensures r.Ok? <==> old(PolicyAdmits(req) && RateAdmits(req.requester, now) && WithinBytes(req.requester, now)
                             && Ledger.Acquire(Caps(), View(), req.requester).0.None?)
      ensures r.Ok? ==> fresh(r.value) && issued == old(issued) + [r.value]
                        && View() == Ledger.Acquire(Caps(), old(View()), req.requester).1
      ensures r.Err? ==> issued == old(issued) && View() == old(View())
      ensures !old(PolicyAdmits(req)) ==> r.Err? && old(PolicyDenies(req, r.error))
      ensures r == Err(RateLimited) <==> old(PolicyAdmits(req) && !RateAdmits(req.requester, now))
      ensures r == Err(BandwidthExceeded) <==>
                old(PolicyAdmits(req) && RateAdmits(req.requester, now) && !WithinBytes(req.requester, now))
      ensures r.Err? && old(PolicyAdmits(req) && RateAdmits(req.requester, now) && WithinBytes(req.requester, now)) ==>
                r.error == AtCapacity(Ledger.Acquire(Caps(), View(), req.requester).0.value)
      ensures reqLimiter != null ==>
                reqLimiter.buckets == if old(PolicyAdmits(req))
                                      then RateLimit.AllowStep(reqLimiter.config, old(reqLimiter.buckets), req.requester, now, true).1
                                      else old(reqLimiter.buckets)
      ensures bwLimiter != null ==>
                bwLimiter.buckets == if old(PolicyAdmits(req) && RateAdmits(req.requester, now))
                                     then Bandwidth.OverStep(bwLimiter.config, old(bwLimiter.buckets), req.requester, now).1
                                     else old(bwLimiter.buckets)
    {
      var denial := CheckPolicy(req);
      if denial.Some? {
        return Err(denial.value);
      }
      denial := CheckLimits(req.requester, now);
      if denial.Some? {
        return Err(denial.value);
      }
      r := AcquireSlot(req.requester);
    }

    /** The release function of a slot this guard granted. */
    method Release(slot: Slot, ghost k: nat)
      requires Valid() && k < |issued| && issued[k] == slot
      modifies this`active, this`perReq, slot`done
      ensures Valid() && issued == old(issued)
      ensures View() == Ledger.Release(old(View()), k)
    {
      if slot.done {
        return;
      }
      slot.done := true;
      active := active - 1;
      var left := (if slot.requester in perReq then perReq[slot.requester] else 0) - 1;
      perReq := if left <= 0 then perReq - {slot.requester} else perReq[slot.requester := left];
    }

    method Charge(requester: string, n: nat, now: real) returns (tripped: bool)
      modifies bwLimiter
      ensures bwLimiter == null ==> !tripped
      ensures bwLimiter != null ==>
                (tripped, bwLimiter.buckets)
                == Bandwidth.ChargeStep(bwLimiter.config, old(bwLimiter.buckets), requester, n, now, true)
    {
      if bwLimiter == null {
        return false;
      }
      tripped := bwLimiter.Charge(requester, n, now);
    }
  }

  function Burst(configured: real, rate: real): real {
    if configured <= 0.0 then rate else configured
  }

  function BlockedNets(a: Addressing, raw: set<string>): set<Net> {
    (set e | e in raw && a.parseCIDR(e).Some? :: a.parseCIDR(e).value)
    + (set e | e in raw && a.parseCIDR(e).None? && a.parseIP(e).Some? :: Net(a.parseIP(e).value, a.parseIP(e).value))
  }

  function BlockedNames(a: Addressing, raw: set<string>): set<string> {
    set e | e in raw && a.parseCIDR(e).None? && a.parseIP(e).None? :: Normalize(a, e)
  }

  /** The name that a host or an entry stands for: lower case, less one trailing dot. */
  predicate StandsFor(a: Addressing, text: string, name: string) {
    a.lower(text) == name + "." || (a.lower(text) == name && !(name != [] && name[|name| - 1] == '.'))
  }

  lemma StandsForItsNormal(a: Addressing, text: string, name: string)
    ensures StandsFor(a, text, name) <==> name == Normalize(a, text)
  {
    var l := a.lower(text);
    if l != [] && l[|l| - 1] == '.' {
      assert l == l[..|l| - 1] + ".";
      assert l == name + "." ==> l[..|l| - 1] == name;
    }
  }

  /** What an entry of a block list blocks: a range its addresses, an address itself, and anything
      else the name it stands for with all that lies under it. */
  ghost predicate Blocks(a: Addressing, entry: string, host: string) {
    match a.parseIP(host)
    case Some(ip) =>
      if a.parseCIDR(entry).Some? then a.parseCIDR(entry).value.first <= ip <= a.parseCIDR(entry).value.last
      else a.parseIP(entry) == Some(ip)
    case None =>
      && a.parseCIDR(entry).None? && a.parseIP(entry).None?
      && exists d, name :: StandsFor(a, entry, d) && StandsFor(a, host, name) && Under(name, d)
  }

  /** The name is `d`, or ends in a dot and `d`. */
  predicate Under(name: string, d: string) {
    name == d || (|name| > |d| && name[|name| - |d| - 1..] == "." + d)
  }

  /** A host is blocked by a list if and only if one of the list's entries blocks it. */
  lemma ListBlocksExactly(a: Addressing, raw: set<string>, host: string)
    ensures (match a.parseIP(host)
             case Some(ip) => NetBlocked(BlockedNets(a, raw), ip)
             case None => DomainBlocked(BlockedNames(a, raw), Normalize(a, host)))
       <==> exists entry :: entry in raw && Blocks(a, entry, host)
  {
    match a.parseIP(host)
    case Some(ip) => AddressIsListed(a, raw, host, ip);
    case None => NameIsListed(a, raw, host);
  }

  lemma AddressIsListed(a: Addressing, raw: set<string>, host: string, ip: IP)
    requires a.parseIP(host) == Some(ip)
    ensures NetBlocked(BlockedNets(a, raw), ip) <==> exists entry :: entry in raw && Blocks(a, entry, host)
  {
    if NetBlocked(BlockedNets(a, raw), ip) {
      var n :| n in BlockedNets(a, raw) && n.first <= ip <= n.last;
      if e :| e in raw && a.parseCIDR(e) == Some(n) {
        assert Blocks(a, e, host);
      } else {
        var e :| e in raw && a.parseCIDR(e).None? && a.parseIP(e).Some? && n == Net(a.parseIP(e).value, a.parseIP(e).value);
        assert Blocks(a, e, host);
      }
    }
    if e :| e in raw && Blocks(a, e, host) {
      if a.parseCIDR(e).Some? {
        assert a.parseCIDR(e).value in BlockedNets(a, raw);
      } else {
        assert Net(ip, ip) in BlockedNets(a, raw);
      }
    }
  }

  lemma NameIsListed(a: Addressing, raw: set<string>, host: string)
    requires a.parseIP(host) == None
    ensures DomainBlocked(BlockedNames(a, raw), Normalize(a, host)) <==> exists entry :: entry in raw && Blocks(a, entry, host)
  {
    var name := Normalize(a, host);
    BlocksSubdomainsOnly(BlockedNames(a, raw), name);
    hide DomainBlocked, Normalize, StandsFor;
    if DomainBlocked(BlockedNames(a, raw), name) {
      var d :| d in BlockedNames(a, raw) && (name == d || (|name| > |d| && name[|name| - |d| - 1..] == "." + d));
      var e :| e in raw && a.parseCIDR(e).None? && a.parseIP(e).None? && d == Normalize(a, e);
      StandsForItsNormal(a, e, d);
      StandsForItsNormal(a, host, name);
      assert Under(name, d);
      assert Blocks(a, e, host);
    }
    if e :| e in raw && Blocks(a, e, host) {
      var d, n :| StandsFor(a, e, d) && StandsFor(a, host, n) && Under(n, d);
      StandsForItsNormal(a, e, d);
      StandsForItsNormal(a, host, n);
      assert d in BlockedNames(a, raw);
    }
  }

  method ParseBlockSet(a: Addressing, raw: set<string>) returns (domains: set<string>, nets: set<Net>)
    ensures domains == BlockedNames(a, raw) && nets == BlockedNets(a, raw)
  {
    domains, nets := {}, {};
    var todo := raw;
    while todo != {}
      invariant todo <= raw && domains == BlockedNames(a, raw - todo) && nets == BlockedNets(a, raw - todo)
      decreases todo
    {
      var e :| e in todo;
      assert raw - (todo - {e}) == raw - todo + {e};
      if a.parseCIDR(e).Some? {
        nets := nets + {a.parseCIDR(e).value};
      } else if a.parseIP(e).Some? {
        nets := nets + {Net(a.parseIP(e).value, a.parseIP(e).value)};
      } else {
        domains := domains + {Normalize(a, e)};
      }
      todo := todo - {e};
    }
    assert raw - todo == raw;
  }

  method IndexDot(h: string) returns (dot: int)
    ensures -1 <= dot < |h|
    ensures dot >= 0 ==> h[dot] == '.' && forall i :: 0 <= i < dot ==> h[i] != '.'
    ensures dot < 0 ==> forall i :: 0 <= i < |h| ==> h[i] != '.'
  {
    for i := 0 to |h|
      invariant forall k :: 0 <= k < i ==> h[k] != '.'
    {
      if h[i] == '.' {
        return i;
      }
    }
    return -1;
  }
}