/** Which messages a connection has asked for: the enableBLOB settings of one connection. */
module BlobPolicy {
  import opened ByteText

  datatype Policy = Never | Also | Only

  datatype Kind = Other | BlobDef | BlobSet

  /** One enableBLOB element; an empty name covers the device, an empty device covers them all. */
  datatype Setting = Setting(device: bytes, name: bytes, value: bytes)

  function ParsePolicy(s: bytes): Option<Policy> {
    var mode := ToLower(TrimSpace(s));
    if mode == Ascii("never") then Some(Never)
    else if mode == Ascii("also") then Some(Also)
    else if mode == Ascii("only") then Some(Only)
    else None
  }

  /** The three modes, in any case and with white space around them; anything else is none. */
  lemma ModeMeaning(s: bytes)
    ensures ParsePolicy(s) == Some(Never) <==> ToLower(TrimSpace(s)) == [110, 101, 118, 101, 114]
    ensures ParsePolicy(s) == Some(Also) <==> ToLower(TrimSpace(s)) == [97, 108, 115, 111]
    ensures ParsePolicy(s) == Some(Only) <==> ToLower(TrimSpace(s)) == [111, 110, 108, 121]
  {
    hide TrimSpace;
    hide ToLower;
    var never, also, only := "never", "also", "only";
    assert never[0] == 'n' && never[1] == 'e' && never[2] == 'v' && never[3] == 'e' && never[4] == 'r';
    assert also[0] == 'a' && also[1] == 'l' && also[2] == 's' && also[3] == 'o';
    assert only[0] == 'o' && only[1] == 'n' && only[2] == 'l' && only[3] == 'y';
    assert Ascii(never) == [110, 101, 118, 101, 114] && Ascii(also) == [97, 108, 115, 111];
    assert Ascii(only) == [111, 110, 108, 121];
  }

  function Key(device: bytes, name: bytes): bytes {
    device + [0] + name
  }

  function Lookup(policy: map<bytes, Policy>, device: bytes, name: bytes): Policy {
    if Key(device, name) in policy then policy[Key(device, name)]
    else if Key(device, []) in policy then policy[Key(device, [])]
    else if Key([], []) in policy then policy[Key([], [])]
    else Never
  }

  function Wants(policy: map<bytes, Policy>, device: bytes, name: bytes, kind: Kind): bool {
    match kind
    case BlobDef => true
    case BlobSet => Lookup(policy, device, name) != Never
    case Other => Lookup(policy, device, name) != Only
  }

  function Settle(policy: map<bytes, Policy>, s: Setting): map<bytes, Policy> {
    match ParsePolicy(s.value)
    case None => policy
    case Some(p) => policy[Key(s.device, s.name) := p]
  }

  /** The table after a connection's settings, in order. */
  function Settled(h: seq<Setting>): map<bytes, Policy> {
    if h == [] then map[] else Settle(Settled(h[..|h| - 1]), h[|h| - 1])
  }

  class Subscriptions {
    var policy: map<bytes, Policy>
    ghost var history: seq<Setting>

    ghost predicate Valid()
      reads this
    {
      policy == Settled(history)
    }

    constructor ()
      ensures Valid() && history == []
    {
      policy, history := map[], [];
    }

    /** An enableBLOB element; an unrecognised mode leaves the table alone. */
    method EnableBlob(s: Setting)
      requires Valid()
      modifies this
      ensures Valid() && history == old(history) + [s]
    {
      var p := ParsePolicy(s.value);
      if p.Some? {
        SetPolicy(s.device, s.name, p.value);
      }
      history := history + [s];
    }

    method SetPolicy(device: bytes, name: bytes, p: Policy)
      modifies `policy
      ensures policy == old(policy)[Key(device, name) := p]
    {
      policy := policy[device + [0] + name := p];
    }

    method PolicyFor(device: bytes, name: bytes) returns (p: Policy)
      ensures p == Lookup(policy, device, name)
    {
      var keys := [device + [0] + name, device + [0], [0]];
      assert device + [0] + [] == device + [0] && [] + [0] + [] == [0 as byte];
      var i := 0;
      while i < |keys|
        invariant 0 <= i <= 3
        invariant i > 0 ==> Key(device, name) !in policy
        invariant i > 1 ==> Key(device, []) !in policy
        invariant i > 2 ==> Key([], []) !in policy
      {
        assert keys[i] == if i == 0 then Key(device, name) else if i == 1 then Key(device, []) else Key([], []);
        if keys[i] in policy {
          return policy[keys[i]];
        }
        i := i + 1;
      }
      p := Never;
    }
  }

  // ---- joined keys are pairs ----

  predicate NulFree(s: bytes) {
    0 !in s
  }

  /** The joined keys tell scopes apart as long as device names hold no NUL. */
  lemma KeyIsPair(d: bytes, n: bytes, d': bytes, n': bytes)
    requires NulFree(d) && NulFree(d')
    ensures Key(d, n) == Key(d', n') <==> d == d' && n == n'
  {
    if Key(d, n) == Key(d', n') {
      var k := Key(d, n);
      assert k[|d|] == 0 && k[|d'|] == 0;
      assert forall i :: 0 <= i < |d| ==> k[i] == d[i] && d[i] in d;
      assert forall i :: 0 <= i < |d'| ==> k[i] == d'[i] && d'[i] in d';
      assert |d| == |d'|;
      assert d == k[..|d|] == d' && n == k[|d| + 1..] == n';
    }
  }

  /** Without that, two scopes can share a key. */
  lemma KeysCanCollide(a: bytes, b: bytes)
    ensures Key(a + [0], b) == Key(a, [0] + b) && a + [0] != a
  {
    assert |a + [0]| == |a| + 1;
  }

  // ---- the latest setting of the most specific scope ----

  /** The latest recognised setting of exactly this scope. */
  ghost predicate LatestIs(h: seq<Setting>, i: nat, device: bytes, name: bytes) {
    && i < |h| && h[i].device == device && h[i].name == name && ParsePolicy(h[i].value).Some?
    && forall j :: i < j < |h| && h[j].device == device && h[j].name == name ==> ParsePolicy(h[j].value).None?
  }

  ghost predicate Plain(h: seq<Setting>) {
    forall s :: s in h ==> NulFree(s.device)
  }

  lemma {:induction false} SettledHolds(h: seq<Setting>, device: bytes, name: bytes)
    requires Plain(h) && NulFree(device)
    ensures Key(device, name) in Settled(h) <==> exists i: nat :: LatestIs(h, i, device, name)
    ensures forall i: nat :: LatestIs(h, i, device, name) ==>
              Key(device, name) in Settled(h) && Settled(h)[Key(device, name)] == ParsePolicy(h[i].value).value
  {
    hide ParsePolicy;
    hide Key;
    if h != [] {
      var init, last := h[..|h| - 1], h[|h| - 1];
      SettledHolds(init, device, name);
      KeyIsPair(device, name, last.device, last.name);
      if last.device == device && last.name == name && ParsePolicy(last.value).Some? {
        assert LatestIs(h, |init|, device, name);
      } else {
        assert forall i: nat :: LatestIs(h, i, device, name) <==> LatestIs(init, i, device, name);
      }
    }
  }

  /** A scope no recognised setting names. */
  ghost predicate Unset(h: seq<Setting>, device: bytes, name: bytes) {
    forall i: nat :: !LatestIs(h, i, device, name)
  }

  /** After any settings the policy of a property is the latest one given for the property, or
      failing that for its device, or failing that for all devices, or else Never. */
  lemma LatestOfMostSpecific(h: seq<Setting>, device: bytes, name: bytes)
    requires Plain(h) && NulFree(device)
    ensures var p := Lookup(Settled(h), device, name);
            && (forall i: nat :: LatestIs(h, i, device, name) ==> Some(p) == ParsePolicy(h[i].value))
            && (Unset(h, device, name) ==>
                  forall i: nat :: LatestIs(h, i, device, []) ==> Some(p) == ParsePolicy(h[i].value))
            && (Unset(h, device, name) && Unset(h, device, []) ==>
                  forall i: nat :: LatestIs(h, i, [], []) ==> Some(p) == ParsePolicy(h[i].value))
            && (Unset(h, device, name) && Unset(h, device, []) && Unset(h, [], []) ==> p == Never)
  {
    hide Settled;
    hide ParsePolicy;
    SettledHolds(h, device, name);
    SettledHolds(h, device, []);
    SettledHolds(h, [], []);
  }

  /** Setting i is the one that decides for this property: the latest of its scope, with no
      recognised setting in a more specific scope. */
  ghost predicate InForce(h: seq<Setting>, i: nat, device: bytes, name: bytes) {
    || LatestIs(h, i, device, name)
    || (Unset(h, device, name) && LatestIs(h, i, device, []))
    || (Unset(h, device, name) && Unset(h, device, []) && LatestIs(h, i, [], []))
  }

  ghost predicate DecidedBy(h: seq<Setting>, i: nat, device: bytes, name: bytes, p: Policy) {
    InForce(h, i, device, name) && ParsePolicy(h[i].value) == Some(p)
  }

  /** The policy is what the setting in force says, and Never exactly when that says so or there
      is none. */
  lemma PolicyIsInForce(h: seq<Setting>, device: bytes, name: bytes)
    requires Plain(h) && NulFree(device)
    ensures forall i: nat :: InForce(h, i, device, name) ==>
              Some(Lookup(Settled(h), device, name)) == ParsePolicy(h[i].value)
    ensures (forall i: nat :: !InForce(h, i, device, name)) ==> Lookup(Settled(h), device, name) == Never
  {
    hide Settled;
    hide ParsePolicy;
    hide Lookup;
    hide LatestIs;
    LatestOfMostSpecific(h, device, name);
    if i: nat :| LatestIs(h, i, device, name) {
      assert InForce(h, i, device, name);
    } else if i: nat :| LatestIs(h, i, device, []) {
      assert InForce(h, i, device, name);
    } else if i: nat :| LatestIs(h, i, [], []) {
      assert InForce(h, i, device, name);
    }
  }

  /** Definitions of BLOB properties always pass. A payload passes exactly when the setting in
      force asks for BLOBs, anything else exactly when it does not ask for BLOBs only. */
  lemma WantsExactlyWhen(h: seq<Setting>, device: bytes, name: bytes)
    requires Plain(h) && NulFree(device)
    ensures Wants(Settled(h), device, name, BlobDef)
    ensures Wants(Settled(h), device, name, BlobSet) <==>
              exists i: nat :: DecidedBy(h, i, device, name, Also) || DecidedBy(h, i, device, name, Only)
    ensures Wants(Settled(h), device, name, Other) <==> !exists i: nat :: DecidedBy(h, i, device, name, Only)
  {
    hide Settled;
    hide ParsePolicy;
    hide Lookup;
    hide InForce;
    PolicyIsInForce(h, device, name);
    if i: nat :| InForce(h, i, device, name) {
      assert DecidedBy(h, i, device, name, Lookup(Settled(h), device, name)) by { IndexInForce(h, i, device, name); }
    }
  }

  lemma IndexInForce(h: seq<Setting>, i: nat, device: bytes, name: bytes)
    requires InForce(h, i, device, name)
    ensures i < |h| && ParsePolicy(h[i].value).Some?
  {
  }

  lemma {:induction false} LatestExists(h: seq<Setting>, i: nat, device: bytes, name: bytes) returns (k: nat)
    requires i < |h| && h[i].device == device && h[i].name == name && ParsePolicy(h[i].value).Some?
    ensures i <= k && LatestIs(h, k, device, name)
  {
    hide ParsePolicy;
    var last := h[|h| - 1];
    if last.device == device && last.name == name && ParsePolicy(last.value).Some? {
      k := |h| - 1;
    } else {
      k := LatestExists(h[..|h| - 1], i, device, name);
    }
  }

  /** A scope set early is set later too. */
  lemma UnsetBefore(h: seq<Setting>, n: nat, device: bytes, name: bytes)
    requires n <= |h| && Unset(h, device, name)
    ensures Unset(h[..n], device, name)
  {
    if i: nat :| LatestIs(h[..n], i, device, name) {
      var k := LatestExists(h, i, device, name);
    }
  }

  /** A setting that came among the first n and decides now decided then. */
  lemma InForceBefore(h: seq<Setting>, n: nat, i: nat, device: bytes, name: bytes)
    requires i < n <= |h| && InForce(h, i, device, name)
    ensures InForce(h[..n], i, device, name)
  {
    hide ParsePolicy;
    if Unset(h, device, name) {
      UnsetBefore(h, n, device, name);
    }
    if Unset(h, device, []) {
      UnsetBefore(h, n, device, []);
    }
  }

  lemma SomeInForce(h: seq<Setting>, n: nat, i: nat, device: bytes, name: bytes) returns (k: nat)
    requires n <= |h| && InForce(h[..n], i, device, name)
    ensures InForce(h, k, device, name)
  {
    hide ParsePolicy;
    if j: nat :| LatestIs(h, j, device, name) {
      k := j;
    } else if j: nat :| LatestIs(h, j, device, []) {
      k := j;
    } else if j: nat :| LatestIs(h, j, [], []) {
      k := j;
    } else {
      UnsetBefore(h, n, device, name);
      UnsetBefore(h, n, device, []);
      UnsetBefore(h, n, [], []);
      assert false;
    }
  }

  /** A connection that wanted a payload after its first n settings no longer wants it after all of
      them exactly when one of the later ones says Never and decides. */
  lemma WithdrawnExactlyWhen(h: seq<Setting>, n: nat, device: bytes, name: bytes)
    requires Plain(h) && NulFree(device) && n <= |h| && Wants(Settled(h[..n]), device, name, BlobSet)
    ensures !Wants(Settled(h), device, name, BlobSet) <==> exists i: nat :: n <= i && DecidedBy(h, i, device, name, Never)
  {
    hide Settled;
    hide ParsePolicy;
    hide Lookup;
    hide InForce;
    assert Plain(h[..n]);
    PolicyIsInForce(h, device, name);
    PolicyIsInForce(h[..n], device, name);
    var j: nat :| InForce(h[..n], j, device, name);
    var i := SomeInForce(h, n, j, device, name);
    IndexInForce(h, i, device, name);
    assert DecidedBy(h, i, device, name, Lookup(Settled(h), device, name));
    if i < n {
      InForceBefore(h, n, i, device, name);
    }
    forall k: nat | n <= k && DecidedBy(h, k, device, name, Never)
      ensures Lookup(Settled(h), device, name) == Never
    {
    }
  }
}
