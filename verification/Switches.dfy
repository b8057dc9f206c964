/** Switch vectors: SetSwitch and its rule on the server, and what a client makes of the snapshots
    the server sends. */
module Switches {
  import opened ByteText
  import opened ClientStore

  datatype Rule = OneOfMany | AtMostOne | AnyOfMany

  /** The first member of that name. */
  function Find(names: seq<Text>, name: Text): (k: Option<nat>)
    ensures k.Some? ==> k.value < |names| && names[k.value] == name && name !in names[..k.value]
    ensures k.None? <==> name !in names
  {
    if names == [] then None
    else if names[0] == name then Some(0)
    else match Find(names[1..], name)
         case None => None
         case Some(k) => assert names[..k + 1] == [names[0]] + names[1..][..k]; Some(k + 1)
  }

  /** The switches after member k is set. */
  function Switched(rule: Rule, ons: seq<bool>, k: nat, on: bool): (r: seq<bool>)
    requires k < |ons|
    ensures |r| == |ons|
  {
    if on && rule != AnyOfMany then seq(|ons|, i => i == k)
    else if !on && rule == OneOfMany then
      if exists o :: 0 <= o < |ons| && o != k && ons[o] then ons[k := false] else ons
    else ons[k := on]
  }

  function SetByName(rule: Rule, names: seq<Text>, ons: seq<bool>, name: Text, on: bool): (r: seq<bool>)
    requires |names| == |ons|
    ensures |r| == |ons|
  {
    match Find(names, name) case None => ons case Some(k) => Switched(rule, ons, k, on)
  }

  ghost predicate Obeys(rule: Rule, ons: seq<bool>) {
    && (rule == OneOfMany ==> exists i :: 0 <= i < |ons| && ons[i])
    && (rule != AnyOfMany ==> forall i, j :: 0 <= i < |ons| && 0 <= j < |ons| && ons[i] && ons[j] ==> i == j)
  }

  /** Switch j after a call that names switch k. Switching on is exclusive unless any number may be On;
      the last one On stays On when one must be. */
  predicate OnAfter(rule: Rule, ons: seq<bool>, k: nat, on: bool, j: nat)
    requires k < |ons| && j < |ons|
  {
    if j == k then on || (rule == OneOfMany && ons[k] && forall o :: 0 <= o < |ons| && ons[o] ==> o == k)
    else ons[j] && !(on && rule != AnyOfMany)
  }

  /** The rule, once it holds, survives any call; and a call is for the first switch of that name,
      and does to every switch what it says unless it would leave a OneOfMany vector with none On. */
  lemma RuleKept(rule: Rule, names: seq<Text>, ons: seq<bool>, name: Text, on: bool)
    requires |names| == |ons|
    ensures var r := SetByName(rule, names, ons, name, on);
            && |r| == |ons|
            && (Obeys(rule, ons) ==> Obeys(rule, r))
            && (name !in names ==> r == ons)
            && forall k: nat, j: nat :: k < |names| && names[k] == name && name !in names[..k] && j < |ons| ==>
                 (r[j] <==> OnAfter(rule, ons, k, on, j))
  {
    var r := SetByName(rule, names, ons, name, on);
    if name in names {
      var k := Find(names, name).value;
      forall f: nat | f < |names| && names[f] == name && name !in names[..f]
        ensures f == k
      {
        OneFirst(names, name, f, k);
      }
      if on {
        assert r[k];
      } else if Obeys(rule, ons) && rule == OneOfMany {
        var i :| 0 <= i < |ons| && ons[i];
        assert i != k ==> r[i];
      }
    }
  }

  lemma OneFirst(names: seq<Text>, name: Text, i: nat, j: nat)
    requires i < |names| && names[i] == name && name !in names[..i]
    requires j < |names| && names[j] == name && name !in names[..j]
    ensures i == j
  {
    NotBefore(names, name, i, j);
    NotBefore(names, name, j, i);
  }

  lemma NotBefore(names: seq<Text>, name: Text, i: nat, j: nat)
    requires i <= |names| && j < |names| && names[j] == name
    ensures j < i ==> name in names[..i]
  {
    if j < i {
      assert names[..i][j] == name;
    }
  }

  // ---- the property object ----

  class Toggle {
    const name: Text
    const caption: Text
    var on: bool

    constructor (name: Text, caption: Text, on: bool)
      ensures this.name == name && this.caption == caption && this.on == on
    {
      this.name, this.caption, this.on := name, caption, on;
    }
  }

  datatype Copy = Copy(name: Text, caption: Text, on: bool)

  class SwitchVector {
    const rule: Rule
    const members: seq<Toggle>

    ghost predicate Valid() {
      forall i, j :: 0 <= i < j < |members| ==> members[i] != members[j]
    }

    ghost function Names(): (r: seq<Text>)
      ensures |r| == |members|
    {
      seq(|members|, i requires 0 <= i < |members| => members[i].name)
    }

    ghost function Ons(): (r: seq<bool>)
      reads members
      ensures |r| == |members|
    {
      seq(|members|, i requires 0 <= i < |members| reads members => members[i].on)
    }

    constructor (rule: Rule, members: seq<Toggle>)
      requires forall i, j :: 0 <= i < j < |members| ==> members[i] != members[j]
      ensures Valid() && this.rule == rule && this.members == members
    {
      this.rule, this.members := rule, members;
    }

    method Lookup(name: Text) returns (m: Toggle?, ghost k: nat)
      ensures m == null <==> Find(Names(), name).None?
      ensures m != null ==> Find(Names(), name) == Some(k) && m == members[k]
    {
      hide Find;
      k := 0;
      var i := 0;
      ghost var names := Names();
      assert names[0..] == names;
      while i < |members|
        invariant 0 <= i <= |members|
        invariant Find(names, name) == Shifted(Find(names[i..], name), i)
      {
        FindAt(names, name, i);
        if members[i].name == name {
          k := i;
          return members[i], k;
        }
        i := i + 1;
      }
      FindEnd(names, name);
      m := null;
    }

    method SetSwitch(name: Text, on: bool)
      requires Valid()
      modifies members
      ensures Ons() == SetByName(rule, Names(), old(Ons()), name, on)
    {
      var m, k := Lookup(name);
      if m == null {
        return;
      }
      if on && (rule == OneOfMany || rule == AtMostOne) {
        var i := 0;
        while i < |members|
          invariant 0 <= i <= |members|
          invariant forall j :: 0 <= j < i ==> members[j].on == (j == k)
        {
          members[i].on := members[i] == m;
          i := i + 1;
        }
      } else if !on && rule == OneOfMany {
        var i := 0;
        while i < |members|
          invariant 0 <= i <= |members|
          invariant Ons() == old(Ons())
          invariant forall j :: 0 <= j < i && j != k ==> !old(Ons())[j]
        {
          if members[i] != m && members[i].on {
            assert old(Ons())[i];
            m.on := false;
            return;
          }
          i := i + 1;
        }
      } else {
        m.on := on;
      }
    }

    method Snapshot() returns (ms: seq<Copy>)
      ensures |ms| == |members|
      ensures forall i :: 0 <= i < |ms| ==> ms[i] == Copy(members[i].name, members[i].caption, members[i].on)
    {
      ms := [];
      var i := 0;
      while i < |members|
        invariant 0 <= i <= |members| && |ms| == i
        invariant forall j :: 0 <= j < i ==> ms[j] == Copy(members[j].name, members[j].caption, members[j].on)
      {
        ms := ms + [Copy(members[i].name, members[i].caption, members[i].on)];
        i := i + 1;
      }
    }
  }

  lemma FindAt(names: seq<Text>, name: Text, i: nat)
    requires i < |names|
    ensures names[i] == name ==> Find(names[i..], name) == Some(0)
    ensures names[i] != name ==> Find(names[i..], name) == Shifted(Find(names[i + 1..], name), 1)
  {
    assert names[i..][1..] == names[i + 1..];
  }

  lemma FindEnd(names: seq<Text>, name: Text)
    ensures Find(names[|names|..], name) == None
  {
  }

  function Shifted(k: Option<nat>, base: nat): Option<nat> {
    match k case None => None case Some(n) => Some(n + base)
  }

  // ---- what a client sees ----

  datatype State = Idle | Okay | Busy | Alert

  function StateText(s: State): Text {
    match s
    case Idle => Ascii("Idle")
    case Okay => Ascii("Ok")
    case Busy => Ascii("Busy")
    case Alert => Ascii("Alert")
  }

  function RuleText(r: Rule): Text {
    match r
    case OneOfMany => Ascii("OneOfMany")
    case AtMostOne => Ascii("AtMostOne")
    case AnyOfMany => Ascii("AnyOfMany")
  }

  function OnOff(on: bool): Text {
    if on then Ascii("On") else Ascii("Off")
  }

  datatype Vector = Vector(device: Text, name: Text, caption: Text, group: Text, perm: Text, rule: Rule,
                           names: seq<Text>, captions: seq<Text>, ons: seq<bool>, state: State)

  predicate WellFormed(p: Vector) {
    |p.names| == |p.captions| == |p.ons|
  }

  /** What marshalDef makes of a snapshot of a switch vector. */
  function DefinitionOf(p: Vector): Msg
    requires WellFormed(p)
  {
    Def(Switch, p.device, p.name, p.caption, p.group, StateText(p.state), p.perm, RuleText(p.rule),
        seq(|p.ons|, i requires 0 <= i < |p.ons| =>
          DefItem(Switch, p.names[i], p.captions[i], OnOff(p.ons[i]), [], [], [], [])))
  }

  /** What marshalSet makes of it. */
  function SettingOf(p: Vector): Msg
    requires WellFormed(p)
  {
    ClientStore.Set(p.device, p.name, StateText(p.state), [],
                    seq(|p.ons|, i requires 0 <= i < |p.ons| => OneItem(p.names[i], OnOff(p.ons[i]))))
  }

  /** A snapshot that a goroutine has taken and not yet sent. */
  datatype Draft = Draft(define: bool, shot: Vector)

  datatype Desk = Desk(p: Vector, drafts: map<nat, Draft>)

  /** What the server's goroutines do, in order: calls on the vector; a snapshot of it, for a
      definition or a set message; the broadcast of that snapshot, later; and broadcasts that
      have nothing to do with it. */
  datatype Op =
    | Flip(name: Text, on: bool)
    | SetState(s: State)
    | Shoot(g: nat, define: bool)
    | Send(g: nat)
    | Elsewhere(m: Msg)

  /** The same vector at another moment. */
  predicate Version(q: Vector, p: Vector) {
    WellFormed(q) && q == p.(ons := q.ons, state := q.state)
  }

  predicate DeskOf(d: Desk, p: Vector) {
    Version(d.p, p) && forall g :: g in d.drafts ==> Version(d.drafts[g].shot, p)
  }

  function Done(d: Desk, op: Op, ghost p: Vector): (r: Desk)
    requires WellFormed(p) && DeskOf(d, p)
    ensures DeskOf(r, p)
  {
    match op
    case Flip(name, on) => d.(p := d.p.(ons := SetByName(d.p.rule, d.p.names, d.p.ons, name, on)))
    case SetState(s) => d.(p := d.p.(state := s))
    case Shoot(g, define) => d.(drafts := d.drafts[g := Draft(define, d.p)])
    case Send(g) => d.(drafts := d.drafts - {g})
    case Elsewhere(_) => d
  }

  function After(p: Vector, ops: seq<Op>): (d: Desk)
    requires WellFormed(p)
    ensures DeskOf(d, p)
  {
    if ops == [] then Desk(p, map[]) else Done(After(p, ops[..|ops| - 1]), ops[|ops| - 1], p)
  }

  function Emitted(d: Desk, op: Op, ghost p: Vector): seq<Msg>
    requires WellFormed(p) && DeskOf(d, p)
  {
    match op
    case Send(g) =>
      if g !in d.drafts then []
      else [if d.drafts[g].define then DefinitionOf(d.drafts[g].shot) else SettingOf(d.drafts[g].shot)]
    case Elsewhere(m) => [m]
    case _ => []
  }

  /** The messages sent. */
  function Sent(p: Vector, ops: seq<Op>): seq<Msg>
    requires WellFormed(p)
  {
    if ops == [] then []
    else Sent(p, ops[..|ops| - 1]) + Emitted(After(p, ops[..|ops| - 1]), ops[|ops| - 1], p)
  }

  /** The snapshot sent last, once a definition has been sent. */
  function LastSent(p: Vector, ops: seq<Op>): (q: Option<Vector>)
    requires WellFormed(p)
    ensures q.Some? ==> Version(q.value, p)
  {
    if ops == [] then None
    else
      var init, last := ops[..|ops| - 1], ops[|ops| - 1];
      var d, was := After(p, init), LastSent(p, init);
      if last.Send? && last.g in d.drafts && (d.drafts[last.g].define || was.Some?) then Some(d.drafts[last.g].shot)
      else was
  }

  ghost predicate Apart(p: Vector, ops: seq<Op>) {
    forall op :: op in ops && op.Elsewhere? ==>
      !Touches(op.m, p.device, p.name) && !Deletes(op.m, p.device, p.name)
  }

  /** The client's copy is p, field by field: its state and its rule by name, every switch with its
      caption, and On or Off. */
  ghost predicate Mirrors(e: Option<Property>, p: Vector)
    requires WellFormed(p)
  {
    && e.Some?
    && var q := e.value;
       && q.device == p.device && q.name == p.name && q.caption == p.caption && q.group == p.group && q.perm == p.perm
       && q.kind == Switch
       && q.state == (match p.state
                      case Idle => Ascii("Idle") case Okay => Ascii("Ok") case Busy => Ascii("Busy")
                      case Alert => Ascii("Alert"))
       && q.rule == (match p.rule
                     case OneOfMany => Ascii("OneOfMany") case AtMostOne => Ascii("AtMostOne")
                     case AnyOfMany => Ascii("AnyOfMany"))
       && |q.members| == |p.ons|
       && forall i :: 0 <= i < |p.ons| ==> Shows(q.members[i], p.names[i], p.captions[i], p.ons[i])
  }

  predicate Shows(m: Member, name: Text, caption: Text, on: bool) {
    && m.name == name && m.caption == caption && m.on == on
    && m.value == if on then Ascii("On") else Ascii("Off")
  }

  lemma TrimOnOff(on: bool)
    ensures TrimSpace(OnOff(on)) == OnOff(on)
  {
    TrimPadded(0, OnOff(on), 0);
    assert Blanks(0) + OnOff(on) + Blanks(0) == OnOff(on);
  }

  lemma OnOffRead(on: bool)
    ensures IsOn(TrimSpace(OnOff(on))) == IsOn(OnOff(on)) == on
    ensures ToUpper(TrimSpace(OnOff(on))) == [79, 78] <==> on
  {
    hide TrimSpace;
    TrimOnOff(on);
    OnText();
    assert ToUpper(OnOff(true)) == Ascii("ON");
    assert |OnOff(false)| == 3;
  }

  lemma DefinedSwitch(num: Text -> real, name: Text, caption: Text, on: bool)
    ensures Shows(Defined(num, DefItem(Switch, name, caption, OnOff(on), [], [], [], [])), name, caption, on)
  {
    hide TrimSpace;
    hide IsOn;
    TrimOnOff(on);
    OnOffRead(on);
  }

  /** A definition shows the snapshot it was made from, whatever was known before. */
  lemma DefinitionShows(num: Text -> real, s: Store, p: Vector)
    requires WellFormed(p)
    ensures Mirrors(Entry(Apply(num, s, DefinitionOf(p)), p.device, p.name), p)
  {
    hide Defined;
    hide OnOff;
    hide Ascii;
    hide Shows;
    forall i | 0 <= i < |p.ons|
      ensures Shows(Defined(num, DefinitionOf(p).defs[i]), p.names[i], p.captions[i], p.ons[i])
    {
      DefinedSwitch(num, p.names[i], p.captions[i], p.ons[i]);
    }
  }

  predicate Distinct(names: seq<Text>) {
    forall i, j :: 0 <= i < j < |names| ==> names[i] != names[j]
  }

  /** A set message brings a copy with the same member names up to date. */
  lemma SettingShows(num: Text -> real, s: Store, was: Vector, p: Vector)
    requires WellFormed(was) && Version(p, was) && Distinct(p.names)
    requires Mirrors(Entry(s, p.device, p.name), was)
    ensures Mirrors(Entry(Apply(num, s, SettingOf(p)), p.device, p.name), p)
  {
    hide AssignAll;
    hide OnOff;
    hide IsOn;
    hide TrimSpace;
    var ms, items := s.devices[p.device][p.name].members, SettingOf(p).ones;
    StateTexts(p.state);
    hide StateText;
    hide Ascii;
    forall i: nat | i < |p.ons|
      ensures Shows(AssignAll(num, ms, items)[i], p.names[i], p.captions[i], p.ons[i])
    {
      assert Shows(ms[i], was.names[i], was.captions[i], was.ons[i]);
      assert LastFor(items, i, ms[i].name);
      AssignAllMeaning(num, ms, items, i);
      OnOffRead(p.ons[i]);
      OnOffText(p.ons[i]);
    }
  }

  lemma OnOffText(on: bool)
    ensures TrimSpace(OnOff(on)) == if on then Ascii("On") else Ascii("Off")
  {
    hide TrimSpace;
    TrimOnOff(on);
  }

  lemma StateTexts(s: State)
    ensures StateText(s) != []
    ensures StateText(s) == match s
                            case Idle => Ascii("Idle") case Okay => Ascii("Ok") case Busy => Ascii("Busy")
                            case Alert => Ascii("Alert")
  {
  }

  lemma ElsewhereKeeps(num: Text -> real, s: Store, m: Msg, d: Text, n: Text)
    requires !Touches(m, d, n) && !Deletes(m, d, n)
    ensures Entry(Apply(num, s, m), d, n) == Entry(s, d, n)
  {
    hide AssignAll;
    hide TagAll;
    hide Defined;
    hide Without;
  }

  /** Whatever a client knew before, once it has applied a definition of the vector it shows the
      snapshot sent last. */
  lemma {:induction false} ShowsLastSent(num: Text -> real, before: seq<Msg>, p: Vector, ops: seq<Op>)
    requires WellFormed(p) && Distinct(p.names) && Apart(p, ops) && LastSent(p, ops).Some?
    ensures Mirrors(Entry(Replay(num, before + Sent(p, ops)), p.device, p.name), LastSent(p, ops).value)
  {
    hide Replay;
    hide Apply;
    hide Entry;
    hide Mirrors;
    hide DefinitionOf;
    hide SettingOf;
    var init, last := ops[..|ops| - 1], ops[|ops| - 1];
    assert last in ops && forall op :: op in init ==> op in ops;
    var h, d := before + Sent(p, init), After(p, init);
    if LastSent(p, init).Some? {
      ShowsLastSent(num, before, p, init);
    }
    if last.Send? && last.g in d.drafts {
      var shot := d.drafts[last.g].shot;
      if d.drafts[last.g].define {
        assert before + Sent(p, ops) == h + [DefinitionOf(shot)];
        ReplayNext(num, h, DefinitionOf(shot));
        DefinitionShows(num, Replay(num, h), shot);
      } else {
        assert before + Sent(p, ops) == h + [SettingOf(shot)];
        ReplayNext(num, h, SettingOf(shot));
        SettingShows(num, Replay(num, h), LastSent(p, init).value, shot);
      }
    } else if last.Elsewhere? {
      assert before + Sent(p, ops) == h + [last.m];
      ReplayNext(num, h, last.m);
      ElsewhereKeeps(num, Replay(num, h), last.m, p.device, p.name);
    } else {
      assert before + Sent(p, ops) == h;
    }
  }

  ghost predicate AllObey(d: Desk, rule: Rule) {
    Obeys(rule, d.p.ons) && forall g :: g in d.drafts ==> Obeys(rule, d.drafts[g].shot.ons)
  }

  lemma {:induction false} RuleKeptThroughout(p: Vector, ops: seq<Op>)
    requires WellFormed(p) && Obeys(p.rule, p.ons)
    ensures AllObey(After(p, ops), p.rule)
    ensures LastSent(p, ops).Some? ==> Obeys(p.rule, LastSent(p, ops).value.ons)
  {
    hide Obeys;
    hide SetByName;
    if ops != [] {
      var init, last := ops[..|ops| - 1], ops[|ops| - 1];
      RuleKeptThroughout(p, init);
      if last.Flip? {
        RuleKept(p.rule, p.names, After(p, init).p.ons, last.name, last.on);
      }
    }
  }

  /** Whatever part of the messages has arrived was all that had been sent at some earlier point. */
  lemma {:induction false} PartlyDelivered(p: Vector, ops: seq<Op>, n: nat) returns (k: nat)
    requires WellFormed(p) && n <= |Sent(p, ops)|
    ensures k <= |ops| && Sent(p, ops[..k]) == Sent(p, ops)[..n]
  {
    if n == |Sent(p, ops)| {
      k := |ops|;
      assert ops[..k] == ops && Sent(p, ops)[..n] == Sent(p, ops);
    } else {
      var init := ops[..|ops| - 1];
      k := PartlyDelivered(p, init, n);
      assert ops[..k] == init[..k] && Sent(p, ops)[..n] == Sent(p, init)[..n];
    }
  }

  lemma {:induction false} DefinedOnceSent(p: Vector, ops: seq<Op>, i: nat)
    requires WellFormed(p) && Apart(p, ops)
    requires i < |Sent(p, ops)| && Sent(p, ops)[i].Def? && Touches(Sent(p, ops)[i], p.device, p.name)
    ensures LastSent(p, ops).Some?
  {
    var init, last := ops[..|ops| - 1], ops[|ops| - 1];
    assert last in ops && forall op :: op in init ==> op in ops;
    if i < |Sent(p, init)| {
      DefinedOnceSent(p, init, i);
    }
  }

  /** If the rule held at the start, then at every moment a client that has received a definition
      of the vector shows one of the states the server sent, and never one that breaks the rule. */
  lemma ClientSeesTheRule(num: Text -> real, before: seq<Msg>, p: Vector, ops: seq<Op>, n: nat)
    requires WellFormed(p) && Distinct(p.names) && Apart(p, ops) && Obeys(p.rule, p.ons)
    requires n <= |Sent(p, ops)|
    requires exists i: nat :: i < n && Sent(p, ops)[i].Def? && Touches(Sent(p, ops)[i], p.device, p.name)
    ensures exists k :: 0 <= k <= |ops| && Sent(p, ops[..k]) == Sent(p, ops)[..n] && LastSent(p, ops[..k]).Some?
              && var shown := LastSent(p, ops[..k]).value;
              Mirrors(Entry(Replay(num, before + Sent(p, ops)[..n]), p.device, p.name), shown) && Obeys(p.rule, shown.ons)
  {
    hide Obeys;
    hide Mirrors;
    hide Entry;
    hide Replay;
    var k := PartlyDelivered(p, ops, n);
    var some := ops[..k];
    assert forall op :: op in some ==> op in ops;
    var i: nat :| i < n && Sent(p, ops)[i].Def? && Touches(Sent(p, ops)[i], p.device, p.name);
    assert Sent(p, some)[i] == Sent(p, ops)[i];
    DefinedOnceSent(p, some, i);
    ShowsLastSent(num, before, p, some);
    RuleKeptThroughout(p, some);
    assert before + Sent(p, ops)[..n] == before + Sent(p, some);
  }
}
