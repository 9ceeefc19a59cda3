/** The exact texts that are signed: discovery objects and request authentications. */
module SignedText {

  /** Text without the field separator. */
  predicate Plain(s: string) {
    '|' !in s
  }

  // ------------------------------------------------------------ decimal text

  const DIGITS := "0123456789"

  function Decimal(n: nat): string {
    if n < 10 then [DIGITS[n]] else Decimal(n / 10) + [DIGITS[n % 10]]
  }

  function SignedDecimal(i: int): string {
    if i < 0 then "-" + Decimal(-i) else Decimal(i)
  }

  function DigitValue(c: char): nat {
    if '0' <= c <= '9' then (c - '0') as nat else 0
  }

  function ParseDecimal(s: string): nat {
    if s == [] then 0 else 10 * ParseDecimal(s[..|s| - 1]) + DigitValue(s[|s| - 1])
  }

  lemma {:induction false} DecimalParses(n: nat)
    ensures ParseDecimal(Decimal(n)) == n
    ensures Decimal(n) != [] && forall c :: c in Decimal(n) ==> '0' <= c <= '9'
  {
    if n < 10 {
      DigitParses([], n);
    } else {
      DecimalParses(n / 10);
      DigitParses(Decimal(n / 10), n % 10);
    }
  }

  lemma DigitParses(front: string, d: nat)
    requires d < 10
    ensures '0' <= DIGITS[d] <= '9' && ParseDecimal(front + [DIGITS[d]]) == 10 * ParseDecimal(front) + d
  {
    assert (front + [DIGITS[d]])[..|front|] == front;
  }

  lemma SignIsFirst(i: int)
    ensures SignedDecimal(i) != [] && (SignedDecimal(i)[0] == '-' <==> i < 0)
  {
    DecimalParses(if i < 0 then -i else i);
    assert i >= 0 ==> SignedDecimal(i)[0] in Decimal(i);
  }

  lemma SignedDecimalIsInjective(i: int, j: int)
    requires SignedDecimal(i) == SignedDecimal(j)
    ensures i == j
  {
    SignIsFirst(i);
    SignIsFirst(j);
    DecimalParses(if i < 0 then -i else i);
    DecimalParses(if j < 0 then -j else j);
    if i < 0 {
      assert SignedDecimal(i)[1..] == Decimal(-i) && SignedDecimal(j)[1..] == Decimal(-j);
    }
  }

  lemma SignedDecimalIsPlain(i: int)
    ensures Plain(SignedDecimal(i))
  {
    DecimalParses(if i < 0 then -i else i);
  }

  // ------------------------------------------------------------------ fields

  function Field(prefix: string, value: string): string {
    prefix + "|" + value
  }

  /** The last field of a text can be read off from the right, whatever comes before it. */
  lemma LastField(a: string, x: string, b: string, y: string)
    requires Field(a, x) == Field(b, y) && Plain(x) && Plain(y)
    ensures a == b && x == y
  {
    SeparatorInside(a, x, b, y);
    SeparatorInside(b, y, a, x);
    assert |a| == |b|;
    var s := Field(a, x);
    assert s[|a| + 1..] == x && s[|b| + 1..] == y;
    assert s[..|a|] == a && s[..|b|] == b;
  }

  /** A later separator of the one reading lies inside the last field of the other. */
  lemma SeparatorInside(a: string, x: string, b: string, y: string)
    requires Field(a, x) == Field(b, y)
    ensures |a| < |b| ==> |b| - |a| - 1 < |x| && x[|b| - |a| - 1] == '|'
  {
    assert Field(b, y)[|b|] == '|';
    assert |a| < |b| ==> Field(a, x)[|b|] == x[|b| - |a| - 1];
  }

  lemma LastNumber(a: string, i: int, b: string, j: int)
    requires Field(a, SignedDecimal(i)) == Field(b, SignedDecimal(j))
    ensures a == b && i == j
  {
    SignedDecimalIsPlain(i);
    SignedDecimalIsPlain(j);
    LastField(a, SignedDecimal(i), b, SignedDecimal(j));
    SignedDecimalIsInjective(i, j);
  }

  // --------------------------------------------------------------- the texts

  const DISCOVERY_PREFIX := "whatgate-disco/v1"
  const AUTHN_PREFIX := "whatgate-authn/v1"

  /** `digest` is the encoded hash of the payload. */
  function DiscoveryText(typ: string, serial: nat, issued: int, expires: int, epoch: nat, digest: string): string {
    Field(Field(Field(Field(Field(Field(DISCOVERY_PREFIX, typ), SignedDecimal(serial)),
      SignedDecimal(issued)), SignedDecimal(expires)), SignedDecimal(epoch)), digest)
  }

  function AuthnText(action: string, peerID: string, ts: int): string {
    Field(Field(Field(AUTHN_PREFIX, action), peerID), SignedDecimal(ts))
  }

  /** Equal discovery texts sign the same object, even if the type contains the separator. */
  lemma DiscoveryTextIsUnambiguous(typ: string, serial: nat, issued: int, expires: int, epoch: nat, digest: string,
                                   typ': string, serial': nat, issued': int, expires': int, epoch': nat, digest': string)
    requires Plain(digest) && Plain(digest')
    requires DiscoveryText(typ, serial, issued, expires, epoch, digest)
          == DiscoveryText(typ', serial', issued', expires', epoch', digest')
    ensures typ == typ' && serial == serial' && issued == issued' && expires == expires'
    ensures epoch == epoch' && digest == digest'
  {
    var t, t' := Field(DISCOVERY_PREFIX, typ), Field(DISCOVERY_PREFIX, typ');
    var s, s' := Field(t, SignedDecimal(serial)), Field(t', SignedDecimal(serial'));
    var i, i' := Field(s, SignedDecimal(issued)), Field(s', SignedDecimal(issued'));
    var x, x' := Field(i, SignedDecimal(expires)), Field(i', SignedDecimal(expires'));
    LastField(Field(x, SignedDecimal(epoch)), digest, Field(x', SignedDecimal(epoch')), digest');
    LastNumber(x, epoch, x', epoch');
    LastNumber(i, expires, i', expires');
    LastNumber(s, issued, s', issued');
    LastNumber(t, serial, t', serial');
    assert t[|DISCOVERY_PREFIX| + 1..] == typ && t'[|DISCOVERY_PREFIX| + 1..] == typ';
  }

  /** Equal authentication texts authenticate the same request, even if the action contains
      the separator. */
  lemma AuthnTextIsUnambiguous(action: string, peerID: string, ts: int, action': string, peerID': string, ts': int)
    requires Plain(peerID) && Plain(peerID') && AuthnText(action, peerID, ts) == AuthnText(action', peerID', ts')
    ensures action == action' && peerID == peerID' && ts == ts'
  {
    var a, a' := Field(AUTHN_PREFIX, action), Field(AUTHN_PREFIX, action');
    LastNumber(Field(a, peerID), ts, Field(a', peerID'), ts');
    LastField(a, peerID, a', peerID');
    assert a[|AUTHN_PREFIX| + 1..] == action && a'[|AUTHN_PREFIX| + 1..] == action';
  }

  /** No text serves both purposes. */
  lemma PurposesAreDisjoint(typ: string, serial: nat, issued: int, expires: int, epoch: nat, digest: string,
                            action: string, peerID: string, ts: int)
    ensures DiscoveryText(typ, serial, issued, expires, epoch, digest) != AuthnText(action, peerID, ts)
  {
    assert DiscoveryText(typ, serial, issued, expires, epoch, digest)[9] == DISCOVERY_PREFIX[9] == 'd';
    assert AuthnText(action, peerID, ts)[9] == AUTHN_PREFIX[9] == 'a';
  }

  /** The premise on peer IDs is needed for the text alone: with a separator inside one, two
      requests share a text. Verification never gets there, as it takes only IDs derived from
      keys, which have none. */
  lemma SeparatorInPeerIDConfuses()
    ensures AuthnText("join", "p|q", 7) == AuthnText("join|p", "q", 7)
  {
    assert Field(Field(AUTHN_PREFIX, "join"), "p|q") == Field(Field(AUTHN_PREFIX, "join|p"), "q");
  }
}
