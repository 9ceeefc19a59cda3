/** The replay table of the coordinator: a request is refused while the text of its signature
    is remembered. One signature may have several texts, since decoding need not be injective.
    The table is kept in memory only, so a restart empties it. Clock readings are nanoseconds,
    one per request. */
module Replay {
  import opened Wrappers
  import opened Discovery
  import SignedText
  import Authn

  const MAX_SKEW := 120 * SECOND

  /** signature text -> when to forget it */
  type Table = map<string, int>

  function Prune(t: Table, now: int): Table {
    if |t| > 1 then map s | s in t && now < t[s] :: t[s] else t
  }

  /** Was the signature seen, and the table afterwards. */
  function SeenStep(t: Table, sig: string, now: int): (bool, Table) {
    if sig in t && now < t[sig] then (true, t) else (false, Prune(t[sig := now + MAX_SKEW], now))
  }

  datatype Attempt = Attempt(auth: Authn.SignedAuth, action: string, claimed: string, now: int)

  datatype AuthError = PeerMismatch | Rejected(why: Authn.AuthError) | Replayed

  /** The checks that come before the table. */
  function Screen(e: Authn.Encoding, log: SignatureLog, a: Attempt): Result<(), AuthError> {
    if a.auth.peerID != a.claimed then Err(PeerMismatch)
    else
      var v := Authn.Verify(e, log, a.auth, a.action, a.now, MAX_SKEW);
      if v.Err? then Err(Rejected(v.error)) else Ok(())
  }

  /** The whole check of one request. */
  function CheckStep(e: Authn.Encoding, log: SignatureLog, t: Table, a: Attempt): (Result<(), AuthError>, Table) {
    if Screen(e, log, a).Err? then (Screen(e, log, a), t)
    else
      var (seen, t') := SeenStep(t, a.auth.signature, a.now);
      (if seen then Err(Replayed) else Ok(()), t')
  }

  // -------------------------------------------------------------------- runs

  datatype Event = Request(a: Attempt) | Restart(at: int) {
    function Now(): int {
      match this
      case Request(a) => a.now
      case Restart(at) => at
    }
  }

  ghost predicate Chronological(es: seq<Event>) {
    forall i, j :: 0 <= i < j < |es| ==> es[i].Now() <= es[j].Now()
  }

  /** The coordinator does not restart after the first `from` events. */
  ghost predicate OneLifetime(es: seq<Event>, from: nat) {
    forall k :: from <= k < |es| ==> es[k].Request?
  }

  function TableStep(e: Authn.Encoding, log: SignatureLog, t: Table, ev: Event): Table {
    match ev
    case Request(a) => CheckStep(e, log, t, a).1
    case Restart(_) => map[]
  }

  /** The table after a run; signatures may keep being made, so each request is checked
      against the log of its own moment. */
  function Run(e: Authn.Encoding, logs: nat -> SignatureLog, es: seq<Event>): Table {
    if es == [] then map[]
    else TableStep(e, logs(|es| - 1), Run(e, logs, es[..|es| - 1]), es[|es| - 1])
  }

  predicate AcceptedAt(e: Authn.Encoding, logs: nat -> SignatureLog, es: seq<Event>, n: nat)
    requires n < |es|
  {
    es[n].Request? && CheckStep(e, logs(n), Run(e, logs, es[..n]), es[n].a).0.Ok?
  }

  /** The run ends by accepting a request. */
  predicate EndsAccepting(e: Authn.Encoding, logs: nat -> SignatureLog, es: seq<Event>) {
    es != [] && AcceptedAt(e, logs, es, |es| - 1)
  }

  function Last(es: seq<Event>): Attempt
    requires es != [] && es[|es| - 1].Request?
  {
    es[|es| - 1].a
  }

  /** The signature is remembered for as long as the clock is below `until`. */
  ghost predicate Remembered(t: Table, sig: string, until: int, now: int) {
    now < until ==> sig in t && t[sig] >= until
  }

  lemma AcceptRemembers(e: Authn.Encoding, log: SignatureLog, t: Table, a: Attempt)
    requires CheckStep(e, log, t, a).0.Ok?
    ensures Remembered(CheckStep(e, log, t, a).1, a.auth.signature, a.now + MAX_SKEW, a.now)
  {}

  lemma StepKeepsRemembered(e: Authn.Encoding, log: SignatureLog, t: Table, a: Attempt, sig: string, until: int, now: int)
    requires Remembered(t, sig, until, now) && now <= a.now
    ensures Remembered(CheckStep(e, log, t, a).1, sig, until, a.now)
  {}

  lemma {:induction false} RunKeepsRemembered(e: Authn.Encoding, logs: nat -> SignatureLog, es: seq<Event>, i: nat)
    requires Chronological(es) && i < |es| && AcceptedAt(e, logs, es, i) && OneLifetime(es, i)
    ensures Remembered(Run(e, logs, es), es[i].a.auth.signature, es[i].a.now + MAX_SKEW, es[|es| - 1].Now())
    decreases |es|
  {
    var init, last := es[..|es| - 1], es[|es| - 1];
    if i == |init| {
      AcceptRemembers(e, logs(i), Run(e, logs, init), last.a);
    } else {
      assert init[..i] == es[..i];
      RunKeepsRemembered(e, logs, init, i);
      StepKeepsRemembered(e, logs(|init|), Run(e, logs, init), last.a, es[i].a.auth.signature,
                          es[i].a.now + MAX_SKEW, init[|init| - 1].Now());
    }
  }

  // ------------------------------------------------- one request, many texts

  /** The same request: one key, peer, action and timestamp, and texts of one signature. */
  predicate SameRequest(e: Authn.Encoding, a: Attempt, b: Attempt) {
    && a.action == b.action && a.claimed == b.claimed && b.auth == a.auth.(signature := b.auth.signature)
    && e.sigOf(a.auth.signature) == e.sigOf(b.auth.signature)
  }

  /** The last moment at which the request is fresh. */
  function FreshUntil(a: Attempt): int {
    a.auth.timestamp * SECOND + MAX_SKEW
  }

  /** Some text of the request's signature is not remembered to the end of its freshness. */
  ghost predicate Forgettable(e: Authn.Encoding, t: Table, a: Attempt) {
    exists text :: e.sigOf(text) == e.sigOf(a.auth.signature) && Outlived(t, text, FreshUntil(a))
  }

  predicate Outlived(t: Table, text: string, until: int) {
    text in t ==> t[text] <= until
  }

  lemma {:induction false} RunMore(e: Authn.Encoding, logs: nat -> SignatureLog, es: seq<Event>, ev: Event)
    ensures Run(e, logs, es + [ev]) == TableStep(e, logs(|es|), Run(e, logs, es), ev)
  {
    assert (es + [ev])[..|es|] == es;
  }

  /** In any run, two acceptances of one signature are of the same request, while it is fresh;
      under one text and without a restart in between they are at least the skew apart. */
  lemma ReplayWindow(e: Authn.Encoding, logs: nat -> SignatureLog, es: seq<Event>, i: nat, j: nat)
    requires Authn.GoodEncoding(e) && Chronological(es) && i < j < |es|
    requires AcceptedAt(e, logs, es, i) && AcceptedAt(e, logs, es, j)
    requires e.sigOf(es[i].a.auth.signature) == e.sigOf(es[j].a.auth.signature)
    ensures SameRequest(e, es[i].a, es[j].a) && es[j].a.now <= FreshUntil(es[i].a)
    ensures es[i].a.auth.signature == es[j].a.auth.signature && OneLifetime(es[..j], i) ==>
              es[i].a.now + MAX_SKEW <= es[j].a.now
  {
    Authn.OneSignatureOneRequest(e, logs(i), logs(j), es[i].a.auth, es[i].a.action, es[i].a.now,
                                 es[j].a.auth, es[j].a.action, es[j].a.now, MAX_SKEW);
    var before := es[..j];
    if OneLifetime(before, i) {
      assert before[..i] == es[..i];
      RunKeepsRemembered(e, logs, before, i);
      StepKeepsRemembered(e, logs(j), Run(e, logs, before), es[j].a, es[i].a.auth.signature,
                          es[i].a.now + MAX_SKEW, before[|before| - 1].Now());
    }
  }

  /** Signatures are only ever added. */
  ghost predicate Growing(logs: nat -> SignatureLog) {
    forall i: nat, j: nat :: i <= j ==> logs(i) <= logs(j)
  }

  /** `more` continues the run and ends by accepting the last request of the run again. */
  ghost predicate AcceptsAgain(e: Authn.Encoding, logs: nat -> SignatureLog, es: seq<Event>, more: seq<Event>)
    requires es != [] && es[|es| - 1].Request?
  {
    && more != [] && Chronological(es + more) && EndsAccepting(e, logs, es + more)
    && more[|more| - 1].Request? && SameRequest(e, Last(es), Last(more))
  }

  /** An entry that outlives `until` is still there at any moment up to then, unless the
      coordinator restarts. */
  lemma {:induction false} RunKeepsEntry(e: Authn.Encoding, logs: nat -> SignatureLog, es: seq<Event>, more: seq<Event>,
                                         text: string, until: int)
    requires text in Run(e, logs, es) && Run(e, logs, es)[text] > until && OneLifetime(more, 0)
    requires forall i :: 0 <= i < |more| ==> more[i].Now() <= until
    ensures text in Run(e, logs, es + more) && Run(e, logs, es + more)[text] > until
    decreases |more|
  {
    hide CheckStep, Run;
    if more == [] {
      assert es + more == es;
    } else {
      var init, last := more[..|more| - 1], more[|more| - 1];
      assert es + more == es + init + [last];
      RunKeepsEntry(e, logs, es, init, text, until);
      RunMore(e, logs, es + init, last);
      StepKeepsEntry(e, logs(|es + init|), Run(e, logs, es + init), last.a, text, until);
    }
  }

  lemma StepKeepsEntry(e: Authn.Encoding, log: SignatureLog, t: Table, a: Attempt, text: string, until: int)
    requires text in t && t[text] > until && a.now <= until
    ensures text in CheckStep(e, log, t, a).1 && CheckStep(e, log, t, a).1[text] > until
  {}

  /** After any run that ends by accepting a request: some continuation without a restart accepts
      that request again, under whatever text, if and only if some text of its signature is not
      remembered to the end of its freshness. */
  lemma AcceptedAgainExactly(e: Authn.Encoding, logs: nat -> SignatureLog, es: seq<Event>)
    requires Chronological(es) && Growing(logs) && EndsAccepting(e, logs, es)
    ensures (exists more :: OneLifetime(more, 0) && AcceptsAgain(e, logs, es, more))
       <==> Forgettable(e, Run(e, logs, es), Last(es))
  {
    if more: seq<Event> :| OneLifetime(more, 0) && AcceptsAgain(e, logs, es, more) {
      AgainIsForgettable(e, logs, es, more);
    }
    if Forgettable(e, Run(e, logs, es), Last(es)) {
      ForgettableIsAgain(e, logs, es);
    }
  }

  lemma AgainIsForgettable(e: Authn.Encoding, logs: nat -> SignatureLog, es: seq<Event>, more: seq<Event>)
    requires EndsAccepting(e, logs, es) && OneLifetime(more, 0) && AcceptsAgain(e, logs, es, more)
    ensures Forgettable(e, Run(e, logs, es), Last(es))
  {
    var text, until := Last(more).auth.signature, FreshUntil(Last(es));
    AgainIsFresh(e, logs, es, more);
    if !Outlived(Run(e, logs, es), text, until) {
      RunKeepsEntry(e, logs, es, more[..|more| - 1], text, until);
    }
  }

  lemma ForgettableIsAgain(e: Authn.Encoding, logs: nat -> SignatureLog, es: seq<Event>)
    requires Chronological(es) && Growing(logs) && EndsAccepting(e, logs, es)
    requires Forgettable(e, Run(e, logs, es), Last(es))
    ensures exists more :: OneLifetime(more, 0) && AcceptsAgain(e, logs, es, more)
  {
    var t, a := Run(e, logs, es), Last(es);
    var text :| e.sigOf(text) == e.sigOf(a.auth.signature) && Outlived(t, text, FreshUntil(a));
    var again := a.(auth := a.auth.(signature := text), now := FreshUntil(a));
    ScreenAgain(e, logs(|es| - 1), logs(|es|), a, again);
    LastIsNewest(es, Request(again));
    assert (es + [Request(again)])[..|es|] == es;
    assert OneLifetime([Request(again)], 0) && AcceptsAgain(e, logs, es, [Request(again)]);
  }

  /** Everything up to a renewed acceptance happens while the request is fresh, and it is the
      table that accepts it. */
  lemma AgainIsFresh(e: Authn.Encoding, logs: nat -> SignatureLog, es: seq<Event>, more: seq<Event>)
    requires EndsAccepting(e, logs, es) && AcceptsAgain(e, logs, es, more)
    ensures var again := Last(more); var t := Run(e, logs, es + more[..|more| - 1]);
      && again.now <= FreshUntil(Last(es))
      && !(again.auth.signature in t && again.now < t[again.auth.signature])
    ensures forall i :: 0 <= i < |more| ==> more[i].Now() <= FreshUntil(Last(es))
  {
    hide Run;
    var all := es + more;
    assert all[..|all| - 1] == es + more[..|more| - 1] && all[|all| - 1] == more[|more| - 1];
    TailIsNotNewer(es, more);
    SameIsFresh(e, logs(|all| - 1), Run(e, logs, all[..|all| - 1]), Last(es), Last(more));
  }

  lemma SameIsFresh(e: Authn.Encoding, log: SignatureLog, t: Table, a: Attempt, again: Attempt)
    requires SameRequest(e, a, again) && CheckStep(e, log, t, again).0.Ok?
    ensures again.now <= FreshUntil(a) && !(again.auth.signature in t && again.now < t[again.auth.signature])
  {}

  lemma TailIsNotNewer(es: seq<Event>, more: seq<Event>)
    requires Chronological(es + more) && more != []
    ensures forall i :: 0 <= i < |more| ==> more[i].Now() <= more[|more| - 1].Now()
  {
    forall i | 0 <= i < |more| ensures (es + more)[|es| + i] == more[i] {}
  }

  /** What passed the first checks passes them under any text of the same signature, up to the
      end of its freshness. */
  lemma ScreenAgain(e: Authn.Encoding, log: SignatureLog, log': SignatureLog, a: Attempt, again: Attempt)
    requires Screen(e, log, a).Ok? && log <= log' && SameRequest(e, a, again) && a.now <= again.now <= FreshUntil(a)
    ensures Screen(e, log', again).Ok?
  {}

  lemma LastIsNewest(es: seq<Event>, ev: Event)
    requires Chronological(es) && es != [] && es[|es| - 1].Now() <= ev.Now()
    ensures Chronological(es + [ev])
  {
    forall i | 0 <= i < |es| ensures es[i].Now() <= ev.Now() {
      assert es[i].Now() <= es[|es| - 1].Now();
    }
  }

  /** The two causes, seen from the table before the acceptance: the timestamp is not in the
      past, or another text of the signature is not remembered long enough. */
  lemma ForgettableExactly(e: Authn.Encoding, log: SignatureLog, t: Table, a: Attempt)
    requires CheckStep(e, log, t, a).0.Ok?
    ensures Forgettable(e, CheckStep(e, log, t, a).1, a)
       <==> a.auth.timestamp * SECOND >= a.now || OtherText(e, t, a)
  {
    var t' := CheckStep(e, log, t, a).1;
    assert t'[a.auth.signature] == a.now + MAX_SKEW;
    forall text | text != a.auth.signature ensures Outlived(t', text, FreshUntil(a)) <==> Outlived(t, text, FreshUntil(a)) {}
    if a.auth.timestamp * SECOND >= a.now {
      assert Outlived(t', a.auth.signature, FreshUntil(a));
    }
  }

  /** Another text of the request's signature is not remembered to the end of its freshness. */
  ghost predicate OtherText(e: Authn.Encoding, t: Table, a: Attempt) {
    exists text ::
      && text != a.auth.signature && e.sigOf(text) == e.sigOf(a.auth.signature)
      && Outlived(t, text, FreshUntil(a))
  }

  /** "Accepted at most once" fails within one lifetime of the coordinator, and exactly for two
      causes. After any run that ends by accepting a request, some continuation without a restart
      accepts that request again if and only if its timestamp was not before the acceptance, or
      some other text of its signature was not remembered to the end of its freshness. */
  lemma ReplayPossibleExactly(e: Authn.Encoding, logs: nat -> SignatureLog, es: seq<Event>)
    requires Chronological(es) && Growing(logs) && EndsAccepting(e, logs, es)
    ensures var n, a := |es| - 1, Last(es);
            (exists more :: OneLifetime(more, 0) && AcceptsAgain(e, logs, es, more))
            <==> a.auth.timestamp * SECOND >= a.now || OtherText(e, Run(e, logs, es[..n]), a)
  {
    var n := |es| - 1;
    AcceptedAgainExactly(e, logs, es);
    ForgettableExactly(e, logs(n), Run(e, logs, es[..n]), Last(es));
  }

  /** The third cause is a restart: it empties the table, so the very same text is accepted again
      at any later moment while the request is fresh, whatever its timestamp. */
  lemma RestartAcceptsAgain(e: Authn.Encoding, logs: nat -> SignatureLog, es: seq<Event>, later: int)
    requires Chronological(es) && Growing(logs) && EndsAccepting(e, logs, es)
    requires Last(es).now <= later <= FreshUntil(Last(es))
    ensures AcceptsAgain(e, logs, es, [Restart(Last(es).now), Request(Last(es).(now := later))])
  {
    var n, a := |es|, Last(es);
    var again, restart := a.(now := later), Restart(a.now);
    LastIsNewest(es, restart);
    LastIsNewest(es + [restart], Request(again));
    RunMore(e, logs, es, restart);
    ScreenAgain(e, logs(n - 1), logs(n + 1), a, again);
    var all := es + [restart, Request(again)];
    assert all == es + [restart] + [Request(again)] && all[..n + 1] == es + [restart];
  }

  /** No repeat without a cause: whatever continuation accepts the request again, the coordinator
      restarted in it, or one of the two causes was there. */
  lemma RepeatHasCause(e: Authn.Encoding, logs: nat -> SignatureLog, es: seq<Event>, more: seq<Event>)
    requires Chronological(es) && Growing(logs) && EndsAccepting(e, logs, es) && AcceptsAgain(e, logs, es, more)
    ensures || (exists k :: 0 <= k < |more| && more[k].Restart?)
            || Last(es).auth.timestamp * SECOND >= Last(es).now
            || OtherText(e, Run(e, logs, es[..|es| - 1]), Last(es))
  {
    if forall k :: 0 <= k < |more| ==> more[k].Request? {
      assert OneLifetime(more, 0);
      ReplayPossibleExactly(e, logs, es);
    }
  }

  /** No two texts decode to one signature. */
  ghost predicate Strict(e: Authn.Encoding) {
    forall s, s' :: e.sigOf(s).Some? && e.sigOf(s) == e.sigOf(s') ==> s == s'
  }

  /** Under a strict decoder a request whose timestamp lies strictly before an acceptance is
      never accepted again before the coordinator restarts. */
  lemma AcceptedOnce(e: Authn.Encoding, logs: nat -> SignatureLog, es: seq<Event>, i: nat, j: nat)
    requires Authn.GoodEncoding(e) && Strict(e) && Chronological(es) && i < j < |es| && OneLifetime(es[..j], i)
    requires AcceptedAt(e, logs, es, i) && es[i].a.auth.timestamp * SECOND < es[i].a.now
    requires es[j].Request? && e.sigOf(es[i].a.auth.signature) == e.sigOf(es[j].a.auth.signature)
    ensures !AcceptedAt(e, logs, es, j)
  {
    if AcceptedAt(e, logs, es, j) {
      ReplayWindow(e, logs, es, i, j);
    }
  }

  /** Under a strict decoder and without a restart the only cause left is the clock: a request can
      be accepted again if and only if its timestamp was not before the acceptance. */
  lemma StrictReplayExactly(e: Authn.Encoding, logs: nat -> SignatureLog, es: seq<Event>)
    requires Strict(e) && Chronological(es) && Growing(logs) && EndsAccepting(e, logs, es)
    ensures (exists more :: OneLifetime(more, 0) && AcceptsAgain(e, logs, es, more))
       <==> Last(es).auth.timestamp * SECOND >= Last(es).now
  {
    ReplayPossibleExactly(e, logs, es);
  }

  /** Line breaks inside a text do not matter, as in the decoder the code uses. */
  ghost predicate IgnoresLineBreaks(e: Authn.Encoding) {
    forall s :: e.sigOf(s + "\n") == e.sigOf(s)
  }

  function Padded(s: string, n: nat): string {
    if n == 0 then s else Padded(s, n - 1) + "\n"
  }

  lemma {:induction false} PaddedDecodes(e: Authn.Encoding, s: string, n: nat)
    requires IgnoresLineBreaks(e)
    ensures e.sigOf(Padded(s, n)) == e.sigOf(s) && |Padded(s, n)| == |s| + n
  {
    if n > 0 {
      PaddedDecodes(e, s, n - 1);
    }
  }

  /** With such a decoder the table, being finite, never holds every text: after any acceptance
      the same request is accepted again, whatever its timestamp and without a restart. */
  lemma LineBreaksDefeatTheTable(e: Authn.Encoding, logs: nat -> SignatureLog, es: seq<Event>)
    requires IgnoresLineBreaks(e) && Chronological(es) && Growing(logs) && EndsAccepting(e, logs, es)
    ensures exists more :: OneLifetime(more, 0) && AcceptsAgain(e, logs, es, more)
  {
    var t, a := Run(e, logs, es), Last(es);
    var n := LongerThan(t.Keys);
    PaddedDecodes(e, a.auth.signature, n);
    assert Outlived(t, Padded(a.auth.signature, n), FreshUntil(a));
    AcceptedAgainExactly(e, logs, es);
  }

  // ------------------------------------------------------------ concrete runs

  /** An honest request signed at time 0, presented at `now` under `text`. */
  function Presented(e: Authn.Encoding, key: Key, text: string, now: int): Event {
    Request(Attempt(Authn.Sign(e, key, "join", 0).(signature := text), "join", e.idOf(key), now))
  }

  /** A log that holds the request's signature from the start. */
  function SignedLog(e: Authn.Encoding, key: Key): SignatureLog {
    {(key, SignedText.AuthnText("join", e.idOf(key), 0))}
  }

  function HonestText(e: Authn.Encoding, key: Key): string {
    Authn.Sign(e, key, "join", 0).signature
  }

  /** Presented twice: accepted the second time unless its text is remembered then. */
  lemma PresentedTwice(e: Authn.Encoding, key: Key, text: string, first: int, second: int)
    requires Authn.GoodEncoding(e) && e.sigOf(text) == e.sigOf(HonestText(e, key)) && 0 <= first <= second <= MAX_SKEW
    requires text != HonestText(e, key) || first + MAX_SKEW <= second
    ensures var logs := (n: nat) => SignedLog(e, key);
            var run := [Presented(e, key, HonestText(e, key), first), Presented(e, key, text, second)];
            AcceptedAt(e, logs, run, 0) && AcceptedAt(e, logs, run, 1)
  {
    var logs := (n: nat) => SignedLog(e, key);
    var run := [Presented(e, key, HonestText(e, key), first), Presented(e, key, text, second)];
    assert Run(e, logs, run[..0]) == map[];
    assert run[..1] == [] + [run[0]];
    RunMore(e, logs, [], run[0]);
  }

  /** First cause: with the clock at the timestamp, the request is accepted, and once more when
      the table has forgotten it and it is still just fresh. */
  lemma AcceptedAgainAtTheEdge(e: Authn.Encoding, key: Key)
    requires Authn.GoodEncoding(e)
    ensures var logs := (n: nat) => SignedLog(e, key);
            var run := [Presented(e, key, HonestText(e, key), 0), Presented(e, key, HonestText(e, key), MAX_SKEW)];
            AcceptedAt(e, logs, run, 0) && AcceptedAt(e, logs, run, 1)
  {
    PresentedTwice(e, key, HonestText(e, key), 0, MAX_SKEW);
  }

  /** Second cause: a second after its timestamp the request is accepted, and at once again under
      a text with a line break added. */
  lemma AcceptedAgainRewritten(e: Authn.Encoding, key: Key)
    requires Authn.GoodEncoding(e) && IgnoresLineBreaks(e)
    ensures var logs := (n: nat) => SignedLog(e, key);
            var run := [Presented(e, key, HonestText(e, key), SECOND), Presented(e, key, HonestText(e, key) + "\n", SECOND)];
            AcceptedAt(e, logs, run, 0) && AcceptedAt(e, logs, run, 1)
  {
    PresentedTwice(e, key, HonestText(e, key) + "\n", SECOND, SECOND);
  }

  /** Third cause: a second after its timestamp the request is accepted, the coordinator restarts,
      and the same text is accepted again at once. */
  lemma AcceptedAgainRestarted(e: Authn.Encoding, key: Key)
    requires Authn.GoodEncoding(e)
    ensures var logs := (n: nat) => SignedLog(e, key);
            var again := Presented(e, key, HonestText(e, key), SECOND);
            var run := [again, Restart(SECOND), again];
            AcceptedAt(e, logs, run, 0) && AcceptedAt(e, logs, run, 2)
  {
    var logs := (n: nat) => SignedLog(e, key);
    var again := Presented(e, key, HonestText(e, key), SECOND);
    var run := [again, Restart(SECOND), again];
    assert Run(e, logs, run[..0]) == map[];
    assert run[..2] == [again] + [Restart(SECOND)];
    RunMore(e, logs, [again], Restart(SECOND));
  }

  // --------------------------------------------------------- pruning invisible

  /** The table that never forgets. */
  function SeenStepFull(t: Table, sig: string, now: int): (bool, Table) {
    if sig in t && now < t[sig] then (true, t) else (false, t[sig := now + MAX_SKEW])
  }

  function CheckStepFull(e: Authn.Encoding, log: SignatureLog, t: Table, a: Attempt): (Result<(), AuthError>, Table) {
    if Screen(e, log, a).Err? then (Screen(e, log, a), t)
    else
      var (seen, t') := SeenStepFull(t, a.auth.signature, a.now);
      (if seen then Err(Replayed) else Ok(()), t')
  }

  function RunFull(e: Authn.Encoding, logs: nat -> SignatureLog, es: seq<Event>): Table {
    if es == [] then map[]
    else
      match es[|es| - 1]
      case Request(a) => CheckStepFull(e, logs(|es| - 1), RunFull(e, logs, es[..|es| - 1]), a).1
      case Restart(_) => map[]
  }

  /** `p` lacks only entries of `f` that have already expired. */
  ghost predicate Agree(p: Table, f: Table, now: int) {
    && (forall s :: s in p ==> s in f && p[s] == f[s])
    && (forall s :: s in f && s !in p ==> f[s] <= now)
  }

  lemma StepAgrees(e: Authn.Encoding, log: SignatureLog, p: Table, f: Table, since: int, a: Attempt)
    requires Agree(p, f, since) && since <= a.now
    ensures CheckStep(e, log, p, a).0 == CheckStepFull(e, log, f, a).0
    ensures Agree(CheckStep(e, log, p, a).1, CheckStepFull(e, log, f, a).1, a.now)
  {}

  lemma {:induction false} RunAgrees(e: Authn.Encoding, logs: nat -> SignatureLog, es: seq<Event>, now: int)
    requires Chronological(es) && (es != [] ==> es[|es| - 1].Now() <= now)
    ensures Agree(Run(e, logs, es), RunFull(e, logs, es), now)
  {
    if es != [] {
      var init, last := es[..|es| - 1], es[|es| - 1];
      RunAgrees(e, logs, init, last.Now());
      if last.Request? {
        StepAgrees(e, logs(|init|), Run(e, logs, init), RunFull(e, logs, init), last.a.now, last.a);
      }
    }
  }

  /** Dropping expired entries never changes an answer: in every run, restarts included, every
      request is answered as by a table that forgets nothing in its lifetime. */
  lemma PruningIsInvisible(e: Authn.Encoding, logs: nat -> SignatureLog, es: seq<Event>, n: nat)
    requires Chronological(es) && n < |es| && es[n].Request?
    ensures CheckStep(e, logs(n), Run(e, logs, es[..n]), es[n].a).0
         == CheckStepFull(e, logs(n), RunFull(e, logs, es[..n]), es[n].a).0
  {
    RunAgrees(e, logs, es[..n], es[n].a.now);
    StepAgrees(e, logs(n), Run(e, logs, es[..n]), RunFull(e, logs, es[..n]), es[n].a.now, es[n].a);
  }

  // ------------------------------------------------ said of the requests alone

  /** The request is from the peer it claims, under the key that peer's ID is derived from, within
      two minutes of its timestamp, with a signature made for this action and moment. */
  predicate Genuine(e: Authn.Encoding, log: SignatureLog, a: Attempt) {
    && a.auth.peerID == a.claimed && a.auth.pubKey.Some? && e.idOf(a.auth.pubKey.value) == a.claimed
    && -120 * SECOND <= a.now - a.auth.timestamp * SECOND <= 120 * SECOND
    && e.sigOf(a.auth.signature).Some?
    && Verifies(log, a.auth.pubKey.value, SignedText.AuthnText(a.action, a.claimed, a.auth.timestamp), e.sigOf(a.auth.signature).value)
  }

  /** An earlier acceptance of this text, in the same lifetime and less than two minutes ago. */
  predicate Shadows(e: Authn.Encoding, logs: nat -> SignatureLog, es: seq<Event>, m: nat, text: string, now: int) {
    && m < |es| && AcceptedAt(e, logs, es, m) && es[m].a.auth.signature == text
    && now < es[m].a.now + 120 * SECOND
    && forall k :: m <= k < |es| ==> es[k].Request?
  }

  ghost predicate Shadowed(e: Authn.Encoding, logs: nat -> SignatureLog, es: seq<Event>, text: string, now: int) {
    exists m: nat :: Shadows(e, logs, es, m, text, now)
  }

  lemma GenuineExactly(e: Authn.Encoding, log: SignatureLog, a: Attempt)
    ensures Screen(e, log, a).Ok? <==> Genuine(e, log, a)
  {}

  /** What an accepted request wrote into the table. */
  predicate Wrote(e: Authn.Encoding, logs: nat -> SignatureLog, es: seq<Event>, m: nat, text: string, until: int) {
    && m < |es| && AcceptedAt(e, logs, es, m) && es[m].a.auth.signature == text && until == es[m].a.now + MAX_SKEW
    && forall k :: m <= k < |es| ==> es[k].Request?
  }

  lemma WroteStays(e: Authn.Encoding, logs: nat -> SignatureLog, es: seq<Event>, a: Attempt, m: nat, text: string, until: int)
    requires Wrote(e, logs, es, m, text, until)
    ensures Wrote(e, logs, es + [Request(a)], m, text, until)
  {
    assert (es + [Request(a)])[..m] == es[..m];
  }

  lemma LastWrote(e: Authn.Encoding, logs: nat -> SignatureLog, es: seq<Event>, a: Attempt)
    requires CheckStep(e, logs(|es|), Run(e, logs, es), a).0.Ok?
    ensures Wrote(e, logs, es + [Request(a)], |es|, a.auth.signature, a.now + MAX_SKEW)
  {
    assert (es + [Request(a)])[..|es|] == es;
  }

  lemma EntryAfter(e: Authn.Encoding, log: SignatureLog, t: Table, a: Attempt, text: string)
    requires text in CheckStep(e, log, t, a).1
    ensures var t' := CheckStep(e, log, t, a).1;
      || (text in t && t'[text] == t[text])
      || (CheckStep(e, log, t, a).0.Ok? && text == a.auth.signature && t'[text] == a.now + MAX_SKEW)
  {}

  /** Whatever is in the table was written by a request accepted since the last restart. */
  lemma {:induction false} EntryHasCause(e: Authn.Encoding, logs: nat -> SignatureLog, es: seq<Event>, text: string)
    requires text in Run(e, logs, es)
    ensures exists m: nat :: Wrote(e, logs, es, m, text, Run(e, logs, es)[text])
    decreases |es|
  {
    var init, last := es[..|es| - 1], es[|es| - 1];
    assert es == init + [last];
    RunMore(e, logs, init, last);
    var t, t' := Run(e, logs, init), Run(e, logs, es);
    if last.Request? {
      hide CheckStep, Run, Wrote;
      EntryAfter(e, logs(|init|), t, last.a, text);
      if text in t && t'[text] == t[text] {
        EntryHasCause(e, logs, init, text);
        var m: nat :| Wrote(e, logs, init, m, text, t[text]);
        WroteStays(e, logs, init, last.a, m, text, t[text]);
      } else {
        LastWrote(e, logs, init, last.a);
      }
    }
  }

  lemma SeenExactly(e: Authn.Encoding, logs: nat -> SignatureLog, es: seq<Event>, a: Attempt)
    requires Chronological(es + [Request(a)])
    ensures (a.auth.signature in Run(e, logs, es) && a.now < Run(e, logs, es)[a.auth.signature])
       <==> Shadowed(e, logs, es, a.auth.signature, a.now)
  {
    var t, text := Run(e, logs, es), a.auth.signature;
    if text in t && a.now < t[text] {
      EntryHasCause(e, logs, es, text);
      var m: nat :| Wrote(e, logs, es, m, text, t[text]);
      assert Shadows(e, logs, es, m, text, a.now);
    }
    if Shadowed(e, logs, es, text, a.now) {
      var m: nat :| Shadows(e, logs, es, m, text, a.now);
      assert Chronological(es) by {
        forall k | 0 <= k < |es| ensures (es + [Request(a)])[k] == es[k] {}
      }
      assert (es + [Request(a)])[|es| - 1].Now() <= (es + [Request(a)])[|es|].Now();
      RunKeepsRemembered(e, logs, es, m);
    }
  }

  /** In any chronological run, restarts included, a request is accepted if and only if it is
      genuine and its text was not accepted less than two minutes before in the same lifetime. */
  lemma AcceptedExactly(e: Authn.Encoding, logs: nat -> SignatureLog, es: seq<Event>, a: Attempt)
    requires Chronological(es + [Request(a)])
    ensures AcceptedAt(e, logs, es + [Request(a)], |es|)
       <==> Genuine(e, logs(|es|), a) && !Shadowed(e, logs, es, a.auth.signature, a.now)
  {
    assert (es + [Request(a)])[..|es|] == es;
    GenuineExactly(e, logs(|es|), a);
    SeenExactly(e, logs, es, a);
    hide Screen, Genuine, Shadowed, Run;
  }
}
