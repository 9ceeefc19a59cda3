/** The exit end of a UDP tunnel: one socket and one slot per target, taken and returned on
    every path, over a slot ledger that other tunnels share. */
module UdpRelay {
  import opened Wrappers
  import opened ExitGuard
  import Ledger = SlotLedger

  /** How the tunnel was set up. Without an authorizer no slots are taken. */
  datatype Config = Config(authorizing: bool, blockPrivate: bool, metering: bool,
                           caps: Ledger.Caps, requester: string, disallowed: IP -> bool)

  datatype Input =
    /** A framed datagram, with what the environment would answer for it: the guard's gates
        before the ledger, name resolution, dialling, and the byte budget after the write. */
    | Datagram(target: string, payload: seq<int>, gates: bool, resolved: Option<IP>, dials: bool, trips: bool)
    /** What other tunnels did to the ledger in between. */
    | Meanwhile(others: seq<Ledger.Event>)

  datatype Target = Target(addr: IP, grant: Option<nat>)

  datatype Sent = Sent(target: string, addr: IP, grant: Option<nat>, payload: seq<int>)

  /** `granted` and `released` list this tunnel's acquisitions and release calls, in order. */
  datatype Relay = Relay(targets: map<string, Target>, ledger: Ledger.State,
                         granted: seq<nat>, released: seq<nat>, sent: seq<Sent>, tripped: bool)

  function Start(ledger: Ledger.State): Relay {
    Relay(map[], ledger, [], [], [], false)
  }

  // ---------------------------------------------------------- the specification

  function CallRelease(s: Relay, grant: Option<nat>): Relay {
    if grant.None? then s
    else s.(ledger := Ledger.Release(s.ledger, grant.value), released := s.released + [grant.value])
  }

  /** Authorise a new target: None when denied. */
  function TakeSlot(c: Config, s: Relay, gates: bool): Option<(Relay, Option<nat>)> {
    if !c.authorizing then Some((s, None))
    else if !gates then None
    else
      var (full, ledger) := Ledger.Acquire(c.caps, s.ledger, c.requester);
      if full.Some? then None
      else
        var k := |s.ledger.grants|;
        Some((s.(ledger := ledger, granted := s.granted + [k]), Some(k)))
  }

  predicate Reachable(c: Config, d: Input)
    requires d.Datagram?
  {
    d.resolved.Some? && !(c.blockPrivate && c.disallowed(d.resolved.value)) && d.dials
  }

  function OpenTarget(c: Config, s: Relay, d: Input): Relay
    requires d.Datagram?
  {
    match TakeSlot(c, s, d.gates)
    case None => s
    case Some((s', grant)) =>
      if Reachable(c, d) then s'.(targets := s'.targets[d.target := Target(d.resolved.value, grant)])
      else CallRelease(s', grant)
  }

  function Forward(c: Config, s: Relay, d: Input): Relay
    requires d.Datagram?
  {
    if d.target !in s.targets then s
    else
      var t := s.targets[d.target];
      s.(sent := s.sent + [Sent(d.target, t.addr, t.grant, d.payload)], tripped := c.metering && d.trips)
  }

  /** Others cannot call this tunnel's release functions. */
  function Others(c: Config, s: Relay, es: seq<Ledger.Event>): Relay
    decreases |es|
  {
    if es == [] then s
    else
      var rest := Others(c, s, es[..|es| - 1]);
      var e := es[|es| - 1];
      if e.CallRelease? && e.grant in s.granted then rest
      else rest.(ledger := Ledger.Step(c.caps, rest.ledger, e))
  }

  function Step(c: Config, s: Relay, i: Input): Relay {
    match i
    case Meanwhile(es) => Others(c, s, es)
    case Datagram(target, _, _, _, _, _) =>
      Forward(c, if target in s.targets then s else OpenTarget(c, s, i), i)
  }

  /** The loop: it stops when the budget trips or the stream ends. */
  function Serve(c: Config, s: Relay, ins: seq<Input>): Relay
    decreases |ins|
  {
    if ins == [] || s.tripped then s else Serve(c, Step(c, s, ins[0]), ins[1..])
  }

  // -------------------------------------------------------------- conservation

  ghost predicate Distinct(ks: seq<nat>) {
    forall i, j :: 0 <= i < j < |ks| ==> ks[i] != ks[j]
  }

  /** Every slot ever granted was released once, or is held by a live target. */
  ghost predicate SlotsAccounted(c: Config, s: Relay) {
    && Distinct(s.granted) && Distinct(s.released)
    && (forall k :: k in s.released ==> k in s.granted)
    && (forall k :: k in s.granted ==>
          && k < |s.ledger.grants| && s.ledger.grants[k].requester == c.requester
          && (s.ledger.grants[k].released <==> k in s.released)
          && (k in s.released || exists t :: t in s.targets && s.targets[t].grant == Some(k)))
    && (!c.authorizing ==> s.granted == [])
  }

  /** Every live target holds an unreleased slot of its own, if slots are taken at all. */
  ghost predicate TargetsHold(c: Config, s: Relay) {
    && (forall t :: t in s.targets ==>
          && (c.authorizing <==> s.targets[t].grant.Some?)
          && (c.authorizing ==> s.targets[t].grant.value in s.granted && s.targets[t].grant.value !in s.released))
    && (forall t, u :: t in s.targets && u in s.targets && t != u && c.authorizing ==>
          s.targets[t].grant != s.targets[u].grant)
  }

  /** The slots this tunnel holds are exactly those of its live targets. */
  ghost predicate Conserved(c: Config, s: Relay) {
    SlotsAccounted(c, s) && TargetsHold(c, s)
  }

  /** Nothing was sent, and nothing is open, to a disallowed address, and what was sent went
      through a slot of this tunnel. */
  ghost predicate Cleared(c: Config, s: Relay) {
    && (forall t :: t in s.targets && c.blockPrivate ==> !c.disallowed(s.targets[t].addr))
    && (forall i :: 0 <= i < |s.sent| ==>
          && (c.blockPrivate ==> !c.disallowed(s.sent[i].addr))
          && (c.authorizing ==> s.sent[i].grant.Some? && s.sent[i].grant.value in s.granted))
  }

  ghost predicate Sound(c: Config, s: Relay) {
    Conserved(c, s) && Cleared(c, s) && Ledger.Balanced(c.caps, s.ledger)
  }

  lemma {:induction false} OthersKeep(c: Config, s: Relay, es: seq<Ledger.Event>)
    requires Conserved(c, s) && Ledger.Balanced(c.caps, s.ledger)
    ensures var s' := Others(c, s, es);
      && Conserved(c, s') && Ledger.Balanced(c.caps, s'.ledger)
      && s' == s.(ledger := s'.ledger) && |s.ledger.grants| <= |s'.ledger.grants|
    decreases |es|
  {
    if es != [] {
      OthersKeep(c, s, es[..|es| - 1]);
      var rest, e := Others(c, s, es[..|es| - 1]), es[|es| - 1];
      if !(e.CallRelease? && e.grant in s.granted) {
        OtherKeeps(c, rest, e);
      }
    }
  }

  /** What other tunnels do in between is any run of the ledger that releases none of this tunnel's grants. */
  lemma {:induction false} OthersRunLedger(c: Config, s: Relay, es: seq<Ledger.Event>)
    requires forall i :: 0 <= i < |es| && es[i].CallRelease? ==> es[i].grant !in s.granted
    ensures Others(c, s, es) == s.(ledger := Ledger.Run(c.caps, s.ledger, es))
    decreases |es|
  {
    if es != [] {
      OthersRunLedger(c, s, es[..|es| - 1]);
    }
  }

  /** One step of another tunnel leaves this tunnel's grants as they are. */
  lemma OtherKeeps(c: Config, s: Relay, e: Ledger.Event)
    requires Conserved(c, s) && Ledger.Balanced(c.caps, s.ledger)
    requires e.CallRelease? ==> e.grant !in s.granted
    ensures var ledger := Ledger.Step(c.caps, s.ledger, e);
      && Conserved(c, s.(ledger := ledger)) && Ledger.Balanced(c.caps, ledger)
      && |s.ledger.grants| <= |ledger.grants|
  {
    match e
    case Authorise(requester) => Ledger.AcquireKeepsBalance(c.caps, s.ledger, requester);
    case CallRelease(k) => Ledger.ReleaseKeepsBalance(c.caps, s.ledger, k);
  }

  /** A slot just taken is live, new, and so far belongs to no target. */
  lemma TakeSlotKeeps(c: Config, s: Relay, gates: bool)
    requires Conserved(c, s) && Ledger.Balanced(c.caps, s.ledger) && TakeSlot(c, s, gates).Some?
    ensures var (s', grant) := TakeSlot(c, s, gates).value;
      && Ledger.Balanced(c.caps, s'.ledger)
      && s'.targets == s.targets && s'.released == s.released && s'.sent == s.sent && s'.tripped == s.tripped
      && (c.authorizing <==> grant.Some?)
      && (!c.authorizing ==> s' == s)
      && (c.authorizing ==>
            && grant.value !in s.granted && s'.granted == s.granted + [grant.value]
            && |s.ledger.grants| == grant.value && |s'.ledger.grants| == grant.value + 1
            && s'.ledger.grants[grant.value] == Ledger.Grant(c.requester, false)
            && forall k :: 0 <= k < |s.ledger.grants| ==> s'.ledger.grants[k] == s.ledger.grants[k])
  {
    Ledger.AcquireKeepsBalance(c.caps, s.ledger, c.requester);
  }

  lemma OpenTargetKeeps(c: Config, s: Relay, d: Input)
    requires Sound(c, s) && d.Datagram? && d.target !in s.targets
    ensures Sound(c, OpenTarget(c, s, d))
  {
    if c.authorizing && TakeSlot(c, s, d.gates).Some? {
      TakeSlotKeeps(c, s, d.gates);
      var (s1, grant) := TakeSlot(c, s, d.gates).value;
      if Reachable(c, d) {
        OpenedKeeps(c, s, s1, grant.value, d);
        OpenedIsCleared(c, s, s1, grant.value, d);
      } else {
        Ledger.ReleaseKeepsBalance(c.caps, s1.ledger, grant.value);
        RefusedKeeps(c, s, s1, grant.value, CallRelease(s1, grant));
      }
    } else if !c.authorizing {
      OpenedFreelyKeeps(c, s, d);
    }
  }

  lemma OpenedFreelyKeeps(c: Config, s: Relay, d: Input)
    requires Sound(c, s) && d.Datagram? && d.target !in s.targets && !c.authorizing
    ensures Sound(c, OpenTarget(c, s, d))
  {
    var s' := OpenTarget(c, s, d);
    assert s' == s.(targets := s'.targets);
  }

  lemma RefusedKeeps(c: Config, s: Relay, s1: Relay, k: nat, s': Relay)
    requires Conserved(c, s) && Cleared(c, s) && c.authorizing
    requires k !in s.granted && |s.ledger.grants| == k && |s1.ledger.grants| == k + 1
    requires s1.ledger.grants[k].requester == c.requester
    requires forall j :: 0 <= j < k ==> s1.ledger.grants[j] == s.ledger.grants[j]
    requires s'.targets == s.targets && s'.sent == s.sent
    requires s'.granted == s.granted + [k] && s'.released == s.released + [k]
    requires s'.ledger.grants == s1.ledger.grants[k := Ledger.Grant(c.requester, true)]
    ensures Conserved(c, s') && Cleared(c, s')
  {}

  lemma OpenedIsCleared(c: Config, s: Relay, s1: Relay, k: nat, d: Input)
    requires Cleared(c, s) && d.Datagram? && Reachable(c, d)
    requires s1.targets == s.targets && s1.sent == s.sent && s1.granted == s.granted + [k]
    ensures Cleared(c, s1.(targets := s1.targets[d.target := Target(d.resolved.value, Some(k))]))
  {}

  lemma OpenedKeeps(c: Config, s: Relay, s1: Relay, k: nat, d: Input)
    requires Conserved(c, s) && c.authorizing && d.Datagram? && d.target !in s.targets && Reachable(c, d)
    requires s1.targets == s.targets && s1.released == s.released && k !in s.granted && s1.granted == s.granted + [k]
    requires |s.ledger.grants| == k && |s1.ledger.grants| == k + 1 && s1.ledger.grants[k] == Ledger.Grant(c.requester, false)
    requires forall j :: 0 <= j < k ==> s1.ledger.grants[j] == s.ledger.grants[j]
    ensures Conserved(c, s1.(targets := s1.targets[d.target := Target(d.resolved.value, Some(k))]))
  {
    var s' := s1.(targets := s1.targets[d.target := Target(d.resolved.value, Some(k))]);
    assert SlotsAccounted(c, s') by {
      assert s'.targets[d.target].grant == Some(k);
      forall j | j in s.granted && j !in s.released
        ensures exists t :: t in s'.targets && s'.targets[t].grant == Some(j)
      {
        var t :| t in s.targets && s.targets[t].grant == Some(j);
        assert s'.targets[t].grant == Some(j);
      }
    }
    assert TargetsHold(c, s');
  }

  lemma ForwardKeeps(c: Config, s: Relay, d: Input)
    requires Sound(c, s) && d.Datagram?
    ensures Sound(c, Forward(c, s, d))
  {
    var s' := Forward(c, s, d);
    assert s' == s.(sent := s'.sent, tripped := s'.tripped);
  }

  lemma StepKeeps(c: Config, s: Relay, i: Input)
    requires Sound(c, s)
    ensures Sound(c, Step(c, s, i))
  {
    match i
    case Meanwhile(es) => OthersKeep(c, s, es);
    case Datagram(target, _, _, _, _, _) =>
      if target !in s.targets {
        OpenTargetKeeps(c, s, i);
        ForwardKeeps(c, OpenTarget(c, s, i), i);
      } else {
        ForwardKeeps(c, s, i);
      }
  }

  /** For any datagrams, any answers of the environment and any interleaving with other
      tunnels: during the loop the tunnel holds exactly the slots of its live targets, and
      nothing is sent to a disallowed address or without a slot. */
  lemma {:induction false} ServeKeeps(c: Config, s: Relay, ins: seq<Input>)
    requires Sound(c, s)
    ensures Sound(c, Serve(c, s, ins))
    decreases |ins|
  {
    if ins != [] && !s.tripped {
      StepKeeps(c, s, ins[0]);
      ServeKeeps(c, Step(c, s, ins[0]), ins[1..]);
    }
  }

  /** A datagram is forwarded exactly when its target is live or can be opened now: authorised
      with a free slot, resolved, not disallowed and dialled. A live target is not authorised
      again and stays live. */
  lemma ForwardedExactly(c: Config, s: Relay, d: Input)
    requires d.Datagram?
    ensures var s' := Step(c, s, d);
      && (d.target in s'.targets <==>
            || d.target in s.targets
            || (&& (c.authorizing ==> d.gates && Ledger.Acquire(c.caps, s.ledger, c.requester).0.None?)
                && Reachable(c, d)))
      && s'.sent == (if d.target in s'.targets
                     then s.sent + [Sent(d.target, s'.targets[d.target].addr, s'.targets[d.target].grant, d.payload)]
                     else s.sent)
      && (d.target in s.targets ==> s'.granted == s.granted && s'.targets == s.targets)
      && (d.target !in s.targets && d.target in s'.targets ==> s'.targets[d.target].addr == d.resolved.value)
      && (forall t :: t in s.targets ==> t in s'.targets && s'.targets[t] == s.targets[t])
      && s'.tripped == (if d.target in s'.targets then c.metering && d.trips else s.tripped)
  {}

  function Held(s: Relay): set<nat> {
    set k | k in s.granted && k !in s.released
  }

  /** The number of slots held is the number of live targets. */
  lemma HeldIsLiveTargets(c: Config, s: Relay)
    requires Conserved(c, s) && c.authorizing
    ensures |Held(s)| == |s.targets|
  {
    var grants := set t | t in s.targets :: s.targets[t].grant.value;
    assert Held(s) == grants by {
      forall k | k in Held(s) ensures k in grants {
        var t :| t in s.targets && s.targets[t].grant == Some(k);
      }
    }
    SameSize(s.targets, s.targets.Keys);
    assert grants == set t | t in s.targets.Keys :: s.targets[t].grant.value;
  }

  lemma {:induction false} SameSize(targets: map<string, Target>, names: set<string>)
    requires names <= targets.Keys && forall t :: t in names ==> targets[t].grant.Some?
    requires forall t, u :: t in names && u in names && t != u ==> targets[t].grant != targets[u].grant
    ensures |set t | t in names :: targets[t].grant.value| == |names|
    decreases |names|
  {
    if names != {} {
      var n :| n in names;
      var rest := names - {n};
      SameSize(targets, rest);
      var all, most := set t | t in names :: targets[t].grant.value, set t | t in rest :: targets[t].grant.value;
      assert all == most + {targets[n].grant.value};
      assert targets[n].grant.value !in most;
    }
  }

  // ------------------------------------------------ why each payload was sent

  /** The relay after the first `j` inputs. */
  function After(c: Config, ledger: Ledger.State, ins: seq<Input>, j: nat): Relay
    requires j <= |ins|
  {
    Serve(c, Start(ledger), ins[..j])
  }

  /** Input `j` opened `target`: it names that very target, the guard's gates were open and a
      slot was free if slots are taken, it resolved to `addr`, and that address was allowed and
      dialled. `grant` is the slot it took. */
  ghost predicate Opens(c: Config, ledger: Ledger.State, ins: seq<Input>, j: nat, target: string, addr: IP, grant: Option<nat>)
    requires j < |ins|
  {
    var s, d := After(c, ledger, ins, j), ins[j];
    && !s.tripped && d.Datagram? && d.target == target && target !in s.targets
    && (c.authorizing ==> d.gates && Ledger.Acquire(c.caps, s.ledger, c.requester).0.None?
                          && grant == Some(|s.ledger.grants|))
    && (!c.authorizing ==> grant == None)
    && d.resolved == Some(addr) && !(c.blockPrivate && c.disallowed(addr)) && d.dials
  }

  ghost predicate Opened(c: Config, ledger: Ledger.State, ins: seq<Input>, n: nat, target: string, addr: IP, grant: Option<nat>)
    requires n <= |ins|
  {
    exists j :: 0 <= j < n && Opens(c, ledger, ins, j, target, addr, grant)
  }

  /** Among the first `n` inputs, one carried this payload for this very target, and that one or
      an earlier one opened the target, at this address and with this slot. */
  ghost predicate Justified(c: Config, ledger: Ledger.State, ins: seq<Input>, n: nat, x: Sent)
    requires n <= |ins|
  {
    exists m :: 0 <= m < n && Carries(ins[m], x) && Opened(c, ledger, ins, m + 1, x.target, x.addr, x.grant)
  }

  predicate Carries(d: Input, x: Sent) {
    d.Datagram? && d.target == x.target && d.payload == x.payload
  }

  /** Everything sent by then is justified, and every live target was opened. */
  ghost predicate AllJustified(c: Config, ledger: Ledger.State, ins: seq<Input>, n: nat, s: Relay)
    requires n <= |ins|
  {
    && (forall i :: 0 <= i < |s.sent| ==> Justified(c, ledger, ins, n, s.sent[i]))
    && (forall t :: t in s.targets ==> Opened(c, ledger, ins, n, t, s.targets[t].addr, s.targets[t].grant))
  }

  lemma {:induction false} ServeMore(c: Config, s: Relay, ins: seq<Input>, i: Input)
    ensures Serve(c, s, ins + [i]) == if Serve(c, s, ins).tripped then Serve(c, s, ins) else Step(c, Serve(c, s, ins), i)
    decreases |ins|
  {
    if ins == [] {
      assert (ins + [i])[1..] == [];
    } else if !s.tripped {
      assert (ins + [i])[1..] == ins[1..] + [i];
      ServeMore(c, Step(c, s, ins[0]), ins[1..], i);
    }
  }

  lemma {:induction false} OthersSendNothing(c: Config, s: Relay, es: seq<Ledger.Event>)
    ensures Others(c, s, es) == s.(ledger := Others(c, s, es).ledger)
    decreases |es|
  {
    if es != [] {
      OthersSendNothing(c, s, es[..|es| - 1]);
    }
  }

  /** What a datagram adds to the live targets is what it opened. */
  lemma StepOpens(c: Config, ledger: Ledger.State, ins: seq<Input>, j: nat)
    requires j < |ins| && ins[j].Datagram? && !After(c, ledger, ins, j).tripped
    ensures var s, d := After(c, ledger, ins, j), ins[j];
      forall t :: t in Step(c, s, d).targets ==>
        || (t in s.targets && Step(c, s, d).targets[t] == s.targets[t])
        || (t == d.target && Opens(c, ledger, ins, j, t, Step(c, s, d).targets[t].addr, Step(c, s, d).targets[t].grant))
  {}

  lemma OpenedBy(c: Config, ledger: Ledger.State, ins: seq<Input>, n: nat, target: string, addr: IP, grant: Option<nat>)
    requires n < |ins|
    requires Opened(c, ledger, ins, n, target, addr, grant) || Opens(c, ledger, ins, n, target, addr, grant)
    ensures Opened(c, ledger, ins, n + 1, target, addr, grant)
  {}

  lemma StepKeepsJustified(c: Config, ledger: Ledger.State, ins: seq<Input>, n: nat)
    requires n < |ins| && AllJustified(c, ledger, ins, n, After(c, ledger, ins, n)) && !After(c, ledger, ins, n).tripped
    ensures AllJustified(c, ledger, ins, n + 1, Step(c, After(c, ledger, ins, n), ins[n]))
  {
    var s, d := After(c, ledger, ins, n), ins[n];
    var s' := Step(c, s, d);
    StepKeepsOpened(c, ledger, ins, n);
    if d.Meanwhile? {
      OthersSendNothing(c, s, d.others);
      assert s'.sent == s.sent;
    } else {
      ForwardedExactly(c, s, d);
    }
    hide *;
    SentStaysJustified(c, ledger, ins, n, s, s');
    JustifiedIs(c, ledger, ins, n + 1, s');
  }

  lemma JustifiedIs(c: Config, ledger: Ledger.State, ins: seq<Input>, n: nat, s: Relay)
    requires n <= |ins|
    requires forall i :: 0 <= i < |s.sent| ==> Justified(c, ledger, ins, n, s.sent[i])
    requires forall t :: t in s.targets ==> Opened(c, ledger, ins, n, t, s.targets[t].addr, s.targets[t].grant)
    ensures AllJustified(c, ledger, ins, n, s)
  {}

  lemma StepKeepsOpened(c: Config, ledger: Ledger.State, ins: seq<Input>, n: nat)
    requires n < |ins| && AllJustified(c, ledger, ins, n, After(c, ledger, ins, n)) && !After(c, ledger, ins, n).tripped
    ensures var s' := Step(c, After(c, ledger, ins, n), ins[n]);
      forall t :: t in s'.targets ==> Opened(c, ledger, ins, n + 1, t, s'.targets[t].addr, s'.targets[t].grant)
  {
    var s, d := After(c, ledger, ins, n), ins[n];
    var s' := Step(c, s, d);
    if d.Meanwhile? {
      OthersSendNothing(c, s, d.others);
      assert s'.targets == s.targets;
    } else {
      StepOpens(c, ledger, ins, n);
    }
    hide Step, After, Opens, Opened, Justified;
    forall t | t in s'.targets ensures Opened(c, ledger, ins, n + 1, t, s'.targets[t].addr, s'.targets[t].grant) {
      OpenedBy(c, ledger, ins, n, t, s'.targets[t].addr, s'.targets[t].grant);
    }
  }

  /** What was sent before stays justified, and so is a payload of the newest input to an open target. */
  lemma SentStaysJustified(c: Config, ledger: Ledger.State, ins: seq<Input>, n: nat, s: Relay, s': Relay)
    requires n < |ins| && AllJustified(c, ledger, ins, n, s)
    requires forall t :: t in s'.targets ==> Opened(c, ledger, ins, n + 1, t, s'.targets[t].addr, s'.targets[t].grant)
    requires s'.sent == s.sent
      || (&& ins[n].Datagram? && ins[n].target in s'.targets
          && var t := s'.targets[ins[n].target];
             s'.sent == s.sent + [Sent(ins[n].target, t.addr, t.grant, ins[n].payload)])
    ensures forall i :: 0 <= i < |s'.sent| ==> Justified(c, ledger, ins, n + 1, s'.sent[i])
  {
    hide Opened;
    forall i | 0 <= i < |s'.sent| ensures Justified(c, ledger, ins, n + 1, s'.sent[i]) {
      if i < |s.sent| {
        assert Justified(c, ledger, ins, n, s.sent[i]);
      } else {
        assert Carries(ins[n], s'.sent[i]);
      }
    }
  }

  lemma {:induction false} PrefixIsJustified(c: Config, ledger: Ledger.State, ins: seq<Input>, n: nat)
    requires n <= |ins|
    ensures AllJustified(c, ledger, ins, n, After(c, ledger, ins, n))
  {
    if n > 0 {
      PrefixIsJustified(c, ledger, ins, n - 1);
      assert ins[..n] == ins[..n - 1] + [ins[n - 1]];
      ServeMore(c, Start(ledger), ins[..n - 1], ins[n - 1]);
      if After(c, ledger, ins, n - 1).tripped {
        JustifiedLater(c, ledger, ins, n - 1, After(c, ledger, ins, n - 1));
      } else {
        StepKeepsJustified(c, ledger, ins, n - 1);
      }
    }
  }

  lemma JustifiedLater(c: Config, ledger: Ledger.State, ins: seq<Input>, n: nat, s: Relay)
    requires n < |ins| && AllJustified(c, ledger, ins, n, s)
    ensures AllJustified(c, ledger, ins, n + 1, s)
  {
    forall i | 0 <= i < |s.sent| ensures Justified(c, ledger, ins, n + 1, s.sent[i]) {
      var m :| 0 <= m < n && Carries(ins[m], s.sent[i]) && Opened(c, ledger, ins, m + 1, s.sent[i].target, s.sent[i].addr, s.sent[i].grant);
    }
  }

  /** For any inputs: each payload that was sent came in a datagram for that very target, and
      that datagram or an earlier one for the same target passed the guard, took the slot the
      target holds, and resolved to the address sent to, which was allowed. */
  lemma SentIsJustified(c: Config, ledger: Ledger.State, ins: seq<Input>, i: nat)
    requires i < |Serve(c, Start(ledger), ins).sent|
    ensures Justified(c, ledger, ins, |ins|, Serve(c, Start(ledger), ins).sent[i])
  {
    assert ins[..|ins|] == ins;
    PrefixIsJustified(c, ledger, ins, |ins|);
  }

  // ------------------------------------------------- what is read and what is sent

  /** The first `read` inputs were read; those at `sentAt` were sent and those at `tookAt` took a slot. */
  datatype Trace = Trace(read: nat, sentAt: seq<nat>, tookAt: seq<nat>)

  ghost predicate Increasing(at: seq<nat>, end: nat) {
    (forall i :: 0 <= i < |at| ==> at[i] < end) && forall i, j :: 0 <= i < j < |at| ==> at[i] < at[j]
  }

  /** A datagram before input `j` opened this target. */
  ghost predicate SentBefore(ins: seq<Input>, sentAt: seq<nat>, j: nat, target: string)
    requires Increasing(sentAt, |ins|)
  {
    exists i :: 0 <= i < |sentAt| && sentAt[i] < j && ins[sentAt[i]].Datagram? && ins[sentAt[i]].target == target
  }

  /** The guard's gates are open and the ledger has a slot to give. */
  predicate SlotIsFree(c: Config, ledger: Ledger.State, d: Input)
    requires d.Datagram?
  {
    d.gates && Ledger.Acquire(c.caps, ledger, c.requester).0.None?
  }

  /** Input `j`, read with the ledger in state `ledger`: what it has sent and what it has taken. */
  ghost predicate ServedAt(c: Config, ledger: Ledger.State, ins: seq<Input>, j: nat, t: Trace)
    requires j < |ins| && Increasing(t.sentAt, |ins|)
  {
    var d := ins[j];
    if d.Meanwhile? then j !in t.sentAt && j !in t.tookAt
    else
      var live := SentBefore(ins, t.sentAt, j, d.target);
      && (j in t.sentAt <==> live || (&& (c.authorizing ==> SlotIsFree(c, ledger, d)) && d.resolved.Some? && d.dials
                                      && !(c.blockPrivate && c.disallowed(d.resolved.value))))
      && (j in t.tookAt <==> !live && c.authorizing && SlotIsFree(c, ledger, d))
  }

  /** Input `j` spent the rest of the byte budget. */
  predicate SpendsBudget(c: Config, ins: seq<Input>, j: nat) {
    c.metering && j < |ins| && ins[j].Datagram? && ins[j].trips
  }

  ghost predicate Ordered(ins: seq<Input>, t: Trace) {
    t.read <= |ins| && Increasing(t.sentAt, t.read) && Increasing(t.tookAt, t.read)
  }

  ghost predicate SendsMatch(ins: seq<Input>, t: Trace, sent: seq<Sent>)
    requires Ordered(ins, t)
  {
    |t.sentAt| == |sent| && forall i :: 0 <= i < |sent| ==> Carries(ins[t.sentAt[i]], sent[i])
  }

  ghost predicate AllServed(c: Config, ledger: Ledger.State, ins: seq<Input>, t: Trace)
    requires Ordered(ins, t)
  {
    forall j :: 0 <= j < t.read ==> ServedAt(c, After(c, ledger, ins, j).ledger, ins, j, t)
  }

  /** Something sent spent the budget. */
  ghost predicate BudgetSpent(c: Config, ins: seq<Input>, t: Trace) {
    exists i :: 0 <= i < |t.sentAt| && SpendsBudget(c, ins, t.sentAt[i])
  }

  /** What spent the budget is the last thing that was read. */
  ghost predicate StopsWhenSpent(c: Config, ins: seq<Input>, t: Trace) {
    forall i :: 0 <= i < |t.sentAt| && SpendsBudget(c, ins, t.sentAt[i]) ==> t.sentAt[i] == t.read - 1
  }

  /** `s` has sent and taken what the trace says, and the trace serves every input read. */
  ghost predicate Traced(c: Config, ledger: Ledger.State, ins: seq<Input>, t: Trace, s: Relay) {
    && Ordered(ins, t) && SendsMatch(ins, t, s.sent) && |t.tookAt| == |s.granted|
    && AllServed(c, ledger, ins, t) && StopsWhenSpent(c, ins, t)
  }

  /** Everything was read, or something sent spent the budget. */
  ghost predicate Complete(c: Config, ins: seq<Input>, t: Trace) {
    t.read == |ins| || BudgetSpent(c, ins, t)
  }

  ghost predicate TargetsMatch(ins: seq<Input>, t: Trace, targets: set<string>)
    requires Ordered(ins, t)
  {
    forall name :: name in targets <==> SentBefore(ins, t.sentAt, t.read, name)
  }

  /** The live targets are those that something was sent to. */
  ghost predicate Running(c: Config, ins: seq<Input>, t: Trace, s: Relay)
    requires Ordered(ins, t)
  {
    TargetsMatch(ins, t, s.targets.Keys) && (s.tripped <==> BudgetSpent(c, ins, t))
  }

  function Extend(t: Trace, sends: bool, takes: bool): Trace {
    Trace(t.read + 1, if sends then t.sentAt + [t.read] else t.sentAt, if takes then t.tookAt + [t.read] else t.tookAt)
  }

  lemma ExtendOrdered(ins: seq<Input>, t: Trace, sends: bool, takes: bool)
    requires Ordered(ins, t) && t.read < |ins|
    ensures Ordered(ins, Extend(t, sends, takes))
  {}

  lemma SentBeforeMore(ins: seq<Input>, t: Trace, sends: bool, takes: bool, j: nat, name: string)
    requires Ordered(ins, t) && t.read < |ins| && j <= t.read
    ensures Ordered(ins, Extend(t, sends, takes))
    ensures SentBefore(ins, Extend(t, sends, takes).sentAt, j, name) <==> SentBefore(ins, t.sentAt, j, name)
  {
    var t' := Extend(t, sends, takes);
    if SentBefore(ins, t.sentAt, j, name) {
      var i :| 0 <= i < |t.sentAt| && t.sentAt[i] < j && ins[t.sentAt[i]].Datagram? && ins[t.sentAt[i]].target == name;
      assert t'.sentAt[i] == t.sentAt[i];
    }
  }

  /** What was served before stays served. */
  lemma ServedStays(c: Config, ledger: Ledger.State, ins: seq<Input>, t: Trace, sends: bool, takes: bool, j: nat)
    requires Ordered(ins, t) && t.read < |ins| && j < t.read && ServedAt(c, ledger, ins, j, t)
    ensures Ordered(ins, Extend(t, sends, takes)) && ServedAt(c, ledger, ins, j, Extend(t, sends, takes))
  {
    ExtendOrdered(ins, t, sends, takes);
    hide SentBefore, SlotIsFree, Ordered;
    if ins[j].Datagram? {
      SentBeforeMore(ins, t, sends, takes, j, ins[j].target);
    }
  }

  /** What `d` sends and takes, according to whether its target is live already. */
  ghost predicate Serves(c: Config, ledger: Ledger.State, d: Input, live: bool, sends: bool, takes: bool) {
    && (d.Meanwhile? ==> !sends && !takes)
    && (d.Datagram? ==>
          && (sends <==> live || (&& (c.authorizing ==> SlotIsFree(c, ledger, d)) && d.resolved.Some? && d.dials
                                  && !(c.blockPrivate && c.disallowed(d.resolved.value))))
          && (takes <==> !live && c.authorizing && SlotIsFree(c, ledger, d)))
  }

  /** What one step adds. */
  ghost predicate Adds(c: Config, s: Relay, s': Relay, d: Input, sends: bool, takes: bool) {
    && (sends ==> d.Datagram?)
    && |s'.sent| == |s.sent| + (if sends then 1 else 0) && s'.sent[..|s.sent|] == s.sent
    && (sends ==> Carries(d, s'.sent[|s.sent|]))
    && |s'.granted| == |s.granted| + (if takes then 1 else 0)
    && s'.targets.Keys == (if sends then s.targets.Keys + {d.target} else s.targets.Keys)
    && s'.tripped == (if sends then c.metering && d.trips else s.tripped)
  }

  lemma StepServes(c: Config, s: Relay, d: Input) returns (sends: bool, takes: bool)
    ensures Serves(c, s.ledger, d, d.Datagram? && d.target in s.targets, sends, takes)
    ensures Adds(c, s, Step(c, s, d), d, sends, takes)
  {
    if d.Meanwhile? {
      OthersSendNothing(c, s, d.others);
      sends, takes := false, false;
    } else {
      ForwardedExactly(c, s, d);
      sends := d.target in Step(c, s, d).targets;
      takes := d.target !in s.targets && c.authorizing && SlotIsFree(c, s.ledger, d);
    }
  }

  lemma TargetsMore(ins: seq<Input>, t: Trace, sends: bool, takes: bool, name: string)
    requires Ordered(ins, t) && t.read < |ins| && (sends ==> ins[t.read].Datagram?)
    ensures var t' := Extend(t, sends, takes);
      && Ordered(ins, t')
      && (SentBefore(ins, t'.sentAt, t'.read, name) <==>
            SentBefore(ins, t.sentAt, t.read, name) || (sends && ins[t.read].target == name))
  {
    var t' := Extend(t, sends, takes);
    SentBeforeMore(ins, t, sends, takes, t.read, name);
    if sends && ins[t.read].target == name {
      assert t'.sentAt[|t.sentAt|] == t.read;
    }
    if i :| 0 <= i < |t.sentAt| && t.sentAt[i] < t.read && ins[t.sentAt[i]].Datagram? && ins[t.sentAt[i]].target == name {
      assert t'.sentAt[i] == t.sentAt[i];
    }
  }

  lemma TraceTargets(c: Config, ins: seq<Input>, t: Trace, sends: bool, takes: bool, s: Relay, s': Relay)
    requires Ordered(ins, t) && t.read < |ins| && TargetsMatch(ins, t, s.targets.Keys)
    requires Adds(c, s, s', ins[t.read], sends, takes)
    ensures Ordered(ins, Extend(t, sends, takes)) && TargetsMatch(ins, Extend(t, sends, takes), s'.targets.Keys)
  {
    hide SentBefore;
    ExtendOrdered(ins, t, sends, takes);
    var t' := Extend(t, sends, takes);
    forall name ensures name in s'.targets <==> SentBefore(ins, t'.sentAt, t'.read, name) {
      TargetsMore(ins, t, sends, takes, name);
    }
  }

  lemma TraceServed(c: Config, ledger: Ledger.State, ins: seq<Input>, t: Trace, sends: bool, takes: bool)
    requires Ordered(ins, t) && t.read < |ins| && AllServed(c, ledger, ins, t)
    requires Serves(c, After(c, ledger, ins, t.read).ledger, ins[t.read],
                    ins[t.read].Datagram? && SentBefore(ins, t.sentAt, t.read, ins[t.read].target), sends, takes)
    ensures Ordered(ins, Extend(t, sends, takes)) && AllServed(c, ledger, ins, Extend(t, sends, takes))
  {
    var t' := Extend(t, sends, takes);
    ExtendOrdered(ins, t, sends, takes);
    hide After;
    forall j | 0 <= j <= t.read ensures ServedAt(c, After(c, ledger, ins, j).ledger, ins, j, t') {
      if j < t.read {
        ServedStays(c, After(c, ledger, ins, j).ledger, ins, t, sends, takes, j);
      } else if ins[j].Datagram? {
        SentBeforeMore(ins, t, sends, takes, j, ins[j].target);
      }
    }
  }

  lemma TraceSent(c: Config, ins: seq<Input>, t: Trace, sends: bool, takes: bool, s: Relay, s': Relay)
    requires Ordered(ins, t) && t.read < |ins| && SendsMatch(ins, t, s.sent) && |t.tookAt| == |s.granted|
    requires Adds(c, s, s', ins[t.read], sends, takes)
    ensures var t' := Extend(t, sends, takes);
      Ordered(ins, t') && SendsMatch(ins, t', s'.sent) && |t'.tookAt| == |s'.granted|
  {
    var t' := Extend(t, sends, takes);
    ExtendOrdered(ins, t, sends, takes);
    forall i | 0 <= i < |s'.sent| ensures Carries(ins[t'.sentAt[i]], s'.sent[i]) {
      if i < |s.sent| {
        assert s'.sent[..|s.sent|][i] == s.sent[i] && t'.sentAt[i] == t.sentAt[i];
      }
    }
  }

  lemma TraceBudget(c: Config, ins: seq<Input>, t: Trace, sends: bool, takes: bool, s: Relay, s': Relay)
    requires Ordered(ins, t) && t.read < |ins| && !BudgetSpent(c, ins, t) && !s.tripped
    requires Adds(c, s, s', ins[t.read], sends, takes)
    ensures var t' := Extend(t, sends, takes);
      StopsWhenSpent(c, ins, t') && (s'.tripped <==> BudgetSpent(c, ins, t'))
  {
    var t' := Extend(t, sends, takes);
    if s'.tripped {
      assert SpendsBudget(c, ins, t'.sentAt[|t.sentAt|]);
    }
  }

  /** One more input read by a loop that is still running. */
  lemma TraceMore(c: Config, ledger: Ledger.State, ins: seq<Input>, t: Trace, s: Relay) returns (t': Trace)
    requires Traced(c, ledger, ins, t, s) && Running(c, ins, t, s) && !s.tripped
    requires t.read < |ins| && s == After(c, ledger, ins, t.read)
    ensures t'.read == t.read + 1 && Traced(c, ledger, ins, t', Step(c, s, ins[t.read])) && Running(c, ins, t', Step(c, s, ins[t.read]))
  {
    var d := ins[t.read];
    var sends, takes := StepServes(c, s, d);
    t' := Extend(t, sends, takes);
    assert d.Datagram? ==> (d.target in s.targets <==> SentBefore(ins, t.sentAt, t.read, d.target));
    assert t'.read == t.read + 1;
    hide Step, After, Serves, SpendsBudget, SentBefore, Carries, Adds, Extend, Ordered, AllServed, SendsMatch, TargetsMatch,
         StopsWhenSpent, BudgetSpent;
    TraceTargets(c, ins, t, sends, takes, s, Step(c, s, d));
    TraceBudget(c, ins, t, sends, takes, s, Step(c, s, d));
    TraceServed(c, ledger, ins, t, sends, takes);
    TraceSent(c, ins, t, sends, takes, s, Step(c, s, d));
  }

  lemma AfterMore(c: Config, ledger: Ledger.State, ins: seq<Input>, n: nat)
    requires n < |ins| && !After(c, ledger, ins, n).tripped
    ensures After(c, ledger, ins, n + 1) == Step(c, After(c, ledger, ins, n), ins[n])
  {
    assert ins[..n + 1] == ins[..n] + [ins[n]];
    ServeMore(c, Start(ledger), ins[..n], ins[n]);
  }

  // -------------------------------------------------------------- the loop itself

  lemma ServeOnce(c: Config, s: Relay, ins: seq<Input>, n: nat)
    requires n < |ins| && !s.tripped
    ensures Serve(c, s, ins[n..]) == Serve(c, Step(c, s, ins[n]), ins[n + 1..])
  {
    assert ins[n..][0] == ins[n] && ins[n..][1..] == ins[n + 1..];
  }

  method ServeInput(c: Config, s0: Relay, i: Input) returns (s: Relay)
    ensures s == Step(c, s0, i)
  {
    match i
    case Meanwhile(others) => s := Others(c, s0, others);
    case Datagram(_, _, _, _, _, _) => s := ServeDatagram(c, s0, i);
  }

  /** The loop body, for one datagram. */
  method ServeDatagram(c: Config, s0: Relay, d: Input) returns (s: Relay)
    requires d.Datagram?
    ensures s == Step(c, s0, d)
  {
    s := s0;
    if d.target !in s.targets {
      var grant := None;
      if c.authorizing {
        if !d.gates {
          return;
        }
        var (full, after) := Ledger.Acquire(c.caps, s.ledger, c.requester);
        if full.Some? {
          return;
        }
        grant := Some(|s.ledger.grants|);
        s := s.(ledger := after, granted := s.granted + [grant.value]);
      }
      if d.resolved.None? {
        s := CallRelease(s, grant);
        return;
      }
      if c.blockPrivate && c.disallowed(d.resolved.value) {
        s := CallRelease(s, grant);
        return;
      }
      if !d.dials {
        s := CallRelease(s, grant);
        return;
      }
      s := s.(targets := s.targets[d.target := Target(d.resolved.value, grant)]);
    }
    var t := s.targets[d.target];
    s := s.(sent := s.sent + [Sent(d.target, t.addr, t.grant, d.payload)], tripped := c.metering && d.trips);
  }

  /** Read, open and forward until the budget is spent or the stream ends. */
  method ServeAll(c: Config, ledger: Ledger.State, ins: seq<Input>) returns (s: Relay, ghost t: Trace)
    requires Ledger.Balanced(c.caps, ledger)
    ensures s == Serve(c, Start(ledger), ins) && Sound(c, s)
    ensures Traced(c, ledger, ins, t, s) && Complete(c, ins, t)
  {
    s := Start(ledger);
    var n := 0;
    t := Trace(0, [], []);
    assert ins[..0] == [] && ins[0..] == ins;
    assert Sound(c, s) && Traced(c, ledger, ins, t, s) && Running(c, ins, t, s);
    hide Sound, Traced, Step, Start;
    while n < |ins| && !s.tripped
      invariant 0 <= n <= |ins| && t.read == n
      invariant s == After(c, ledger, ins, n) && Serve(c, Start(ledger), ins) == Serve(c, s, ins[n..])
      invariant Sound(c, s)
      invariant Traced(c, ledger, ins, t, s) && Ordered(ins, t) && Running(c, ins, t, s)
    {
      ServeOnce(c, s, ins, n);
      StepKeeps(c, s, ins[n]);
      AfterMore(c, ledger, ins, n);
      t := TraceMore(c, ledger, ins, t, s);
      TracedIsOrdered(c, ledger, ins, t, Step(c, s, ins[n]));
      s := ServeInput(c, s, ins[n]);
      n := n + 1;
    }
    assert Serve(c, s, ins[n..]) == s;
  }

  lemma TracedIsOrdered(c: Config, ledger: Ledger.State, ins: seq<Input>, t: Trace, s: Relay)
    requires Traced(c, ledger, ins, t, s)
    ensures Ordered(ins, t)
  {}

  /** Serve one tunnel to its end. What was read, sent and taken is as the trace says: every input
      read was served, and reading stopped at the first datagram that was sent and spent the
      byte budget, or at the end of the stream. Whatever happened, every slot the tunnel was
      granted has been released exactly once, the shared ledger balances, and each payload that
      was sent went to the target it was addressed to, which had passed the guard. */
  method RelayUDP(c: Config, ledger: Ledger.State, ins: seq<Input>) returns (s: Relay, ghost t: Trace)
    requires Ledger.Balanced(c.caps, ledger)
    ensures Traced(c, ledger, ins, t, s) && Complete(c, ins, t)
    ensures s.sent == Serve(c, Start(ledger), ins).sent && s.granted == Serve(c, Start(ledger), ins).granted
    ensures Distinct(s.granted) && Distinct(s.released)
    ensures forall k :: k in s.granted <==> k in s.released
    ensures forall k :: k in s.granted ==> k < |s.ledger.grants| && s.ledger.grants[k].released
    ensures Ledger.Balanced(c.caps, s.ledger) && Cleared(c, s)
    ensures forall i :: 0 <= i < |s.sent| ==> Justified(c, ledger, ins, |ins|, s.sent[i])
  {
    hide Sound, Serve, Justified, Cleared, AllServed, StopsWhenSpent, SendsMatch;
    s, t := ServeAll(c, ledger, ins);
    s := TearDown(c, s);
    forall i | 0 <= i < |s.sent| ensures Justified(c, ledger, ins, |ins|, s.sent[i]) {
      SentIsJustified(c, ledger, ins, i);
    }
  }

  /** Close every socket and call its release function. */
  method TearDown(c: Config, s0: Relay) returns (s: Relay)
    requires Sound(c, s0)
    ensures s.sent == s0.sent && s.granted == s0.granted && s.targets == map[]
    ensures Distinct(s.granted) && Distinct(s.released)
    ensures forall k :: k in s.granted <==> k in s.released
    ensures forall k :: k in s.granted ==> k < |s.ledger.grants| && s.ledger.grants[k].released
    ensures Ledger.Balanced(c.caps, s.ledger) && Cleared(c, s)
  {
    s := s0;
    while s.targets != map[]
      invariant Sound(c, s)
      invariant s.sent == s0.sent && s.granted == s0.granted
      decreases |s.targets|
    {
      var t :| t in s.targets;
      CloseKeeps(c, s, t);
      s := Close(s, t);
    }
    AllClosed(c, s);
  }

  function Close(s: Relay, t: string): (s': Relay)
    requires t in s.targets
    ensures s'.sent == s.sent && s'.granted == s.granted && |s'.targets| < |s.targets|
  {
    var s' := CallRelease(s, s.targets[t].grant).(targets := s.targets - {t});
    assert s'.targets.Keys == s.targets.Keys - {t};
    assert |s'.targets| == |s'.targets.Keys| && |s.targets| == |s.targets.Keys|;
    s'
  }

  lemma AllClosed(c: Config, s: Relay)
    requires Conserved(c, s) && s.targets == map[]
    ensures forall k :: k in s.granted <==> k in s.released
    ensures forall k :: k in s.granted ==> k < |s.ledger.grants| && s.ledger.grants[k].released
  {}

  lemma CloseKeeps(c: Config, s: Relay, t: string)
    requires Sound(c, s) && t in s.targets
    ensures Sound(c, Close(s, t))
  {
    if c.authorizing {
      var k := s.targets[t].grant.value;
      Ledger.ReleaseKeepsBalance(c.caps, s.ledger, k);
      ClosedIsConserved(c, s, t, k, Close(s, t));
    }
  }

  lemma ClosedIsConserved(c: Config, s: Relay, t: string, k: nat, s': Relay)
    requires Conserved(c, s) && t in s.targets && s.targets[t].grant == Some(k)
    requires s'.targets == s.targets - {t} && s'.granted == s.granted && s'.released == s.released + [k]
    requires s'.ledger.grants == s.ledger.grants[k := Ledger.Grant(c.requester, true)]
    ensures Conserved(c, s')
  {
    ClosedIsAccounted(c, s, t, k, s');
    ClosedHolds(c, s, t, k, s');
  }

  lemma ClosedIsAccounted(c: Config, s: Relay, t: string, k: nat, s': Relay)
    requires Conserved(c, s) && t in s.targets && s.targets[t].grant == Some(k)
    requires s'.targets == s.targets - {t} && s'.granted == s.granted && s'.released == s.released + [k]
    requires s'.ledger.grants == s.ledger.grants[k := Ledger.Grant(c.requester, true)]
    ensures SlotsAccounted(c, s')
  {
    forall j | j in s'.granted && j !in s'.released
      ensures exists u :: u in s'.targets && s'.targets[u].grant == Some(j)
    {
      var u :| u in s.targets && s.targets[u].grant == Some(j);
      assert k in s'.released;
      assert s'.targets[u].grant == Some(j);
    }
  }

  lemma ClosedHolds(c: Config, s: Relay, t: string, k: nat, s': Relay)
    requires Conserved(c, s) && t in s.targets && s.targets[t].grant == Some(k)
    requires s'.targets == s.targets - {t} && s'.granted == s.granted && s'.released == s.released + [k]
    ensures TargetsHold(c, s')
  {}
}
