/** The client's property store as a function of the messages it has applied. */
module ClientStore {
  import opened ByteText

  type Text = bytes

  datatype Kind = Number | Switch | TextKind | Light | BlobKind

  datatype Member = Member(
    name: Text, caption: Text, value: Text, num: real, on: bool,
    format: Text, min: real, max: real, step: real, size: int)

  datatype Property = Property(
    device: Text, name: Text, caption: Text, group: Text,
    kind: Kind, state: Text, perm: Text, rule: Text,
    message: Text, rev: nat, members: seq<Member>)

  datatype DefItem = DefItem(kind: Kind, name: Text, caption: Text, value: Text,
                             format: Text, min: Text, max: Text, step: Text)

  datatype OneItem = OneItem(name: Text, value: Text)

  datatype BlobItem = BlobItem(name: Text, format: Text, size: int)

  /** The messages that can change the store. The items of a definition or of a set are in the
      order in which they are applied: numbers, switches, texts, lights, BLOBs. */
  datatype Msg =
    | Def(kind: Kind, device: Text, name: Text, caption: Text, group: Text, state: Text, perm: Text, rule: Text,
          defs: seq<DefItem>)
    | Set(device: Text, name: Text, state: Text, message: Text, ones: seq<OneItem>)
    | Blob(device: Text, name: Text, state: Text, message: Text, blobs: seq<BlobItem>)
    | Del(device: Text, name: Text)

  datatype Store = Store(devices: map<Text, map<Text, Property>>, order: seq<Text>)

  const EMPTY := Store(map[], [])

  // ---- members ----

  function IsOn(s: Text): bool {
    ToUpper(TrimSpace(s)) == Ascii("ON")
  }

  /** How a definition fills a member; `num` is ParseNumber with failures read as zero. */
  function Defined(num: Text -> real, d: DefItem): Member {
    var v := TrimSpace(d.value);
    match d.kind
    case Number => Member(d.name, d.caption, v, num(v), false, d.format, num(d.min), num(d.max), num(d.step), 0)
    case Switch => Member(d.name, d.caption, v, 0.0, IsOn(v), [], 0.0, 0.0, 0.0, 0)
    case BlobKind => Member(d.name, d.caption, [], 0.0, false, [], 0.0, 0.0, 0.0, 0)
    case _ => Member(d.name, d.caption, v, 0.0, false, [], 0.0, 0.0, 0.0, 0)
  }

  function Assigned(num: Text -> real, m: Member, value: Text): Member {
    var v := TrimSpace(value);
    m.(value := v, num := num(v), on := IsOn(v))
  }

  /** Every member of that name takes the value; a name that no member has is ignored. */
  function AssignOne(num: Text -> real, ms: seq<Member>, it: OneItem): (r: seq<Member>)
    ensures |r| == |ms|
  {
    seq(|ms|, i requires 0 <= i < |ms| => if ms[i].name == it.name then Assigned(num, ms[i], it.value) else ms[i])
  }

  function AssignAll(num: Text -> real, ms: seq<Member>, items: seq<OneItem>): (r: seq<Member>)
    ensures |r| == |ms|
  {
    if items == [] then ms
    else AssignOne(num, AssignAll(num, ms, items[..|items| - 1]), items[|items| - 1])
  }

  /** Item k is the last one for that name. */
  predicate LastFor(items: seq<OneItem>, k: nat, name: Text) {
    k < |items| && items[k].name == name && forall j :: k < j < |items| ==> items[j].name != name
  }

  lemma OnText()
    ensures Ascii("ON") == [79, 78]
  {
    var s := "ON";
    assert s[0] == 'O' && s[1] == 'N';
  }

  lemma OnMeaning(s: Text)
    ensures IsOn(TrimSpace(s)) <==> ToUpper(TrimSpace(s)) == [79, 78]
    ensures IsOn(s) <==> ToUpper(TrimSpace(s)) == [79, 78]
  {
    hide TrimSpace;
    hide ToUpper;
    TrimTwice(s);
    OnText();
  }

  /** Applying a set message: a member takes the trimmed text of the last item that names it, the
      number that text stands for, and whether it is the word On; it keeps everything else, and is
      left as it was when no item names it. */
  lemma AssignAllMeaning(num: Text -> real, ms: seq<Member>, items: seq<OneItem>, i: nat)
    requires i < |ms|
    ensures var m, r := ms[i], AssignAll(num, ms, items)[i];
            && r.name == m.name && r.caption == m.caption && r.format == m.format
            && r.min == m.min && r.max == m.max && r.step == m.step && r.size == m.size
    ensures var r := AssignAll(num, ms, items)[i];
            forall k: nat :: LastFor(items, k, ms[i].name) ==>
              var v := TrimSpace(items[k].value);
              r.value == v && r.num == num(v) && (r.on <==> ToUpper(v) == [79, 78])
    ensures (forall k :: 0 <= k < |items| ==> items[k].name != ms[i].name) ==> AssignAll(num, ms, items)[i] == ms[i]
  {
    hide AssignAll;
    hide TrimSpace;
    hide ToUpper;
    hide IsOn;
    AssignAllIs(num, ms, items, i);
    forall k: nat | LastFor(items, k, ms[i].name)
      ensures var r, v := AssignAll(num, ms, items)[i], TrimSpace(items[k].value);
              r.value == v && r.num == num(v) && (r.on <==> ToUpper(v) == [79, 78])
    {
      OnMeaning(items[k].value);
    }
    LastOrNone(items, ms[i].name);
  }

  lemma {:induction false} LastOrNone(items: seq<OneItem>, name: Text)
    ensures (exists k: nat :: LastFor(items, k, name)) || forall k :: 0 <= k < |items| ==> items[k].name != name
  {
    if items != [] {
      var init := items[..|items| - 1];
      LastOrNone(init, name);
      if items[|items| - 1].name == name {
        assert LastFor(items, |init|, name);
      } else if k: nat :| LastFor(init, k, name) {
        assert LastFor(items, k, name);
      }
    }
  }

  lemma {:induction false} AssignAllIs(num: Text -> real, ms: seq<Member>, items: seq<OneItem>, i: nat)
    requires i < |ms|
    ensures AssignAll(num, ms, items)[i].name == ms[i].name
    ensures forall k: nat :: LastFor(items, k, ms[i].name) ==>
              AssignAll(num, ms, items)[i] == Assigned(num, ms[i], items[k].value)
    ensures (forall k :: 0 <= k < |items| ==> items[k].name != ms[i].name) ==> AssignAll(num, ms, items)[i] == ms[i]
  {
    hide Assigned;
    hide AssignAll;
    AssignLast(num, ms, items, i);
    if items != [] {
      var init := items[..|items| - 1];
      AssignAllIs(num, ms, init, i);
      forall k: nat | LastFor(items, k, ms[i].name)
        ensures AssignAll(num, ms, items)[i] == Assigned(num, ms[i], items[k].value)
      {
        if k < |init| {
          assert LastFor(init, k, ms[i].name);
        }
      }
    }
  }

  /** What a definition makes of an item, by kind: only a number has a number, a format and a range,
      only a switch can be on, and a BLOB has no text. */
  lemma DefinedMeaning(num: Text -> real, d: DefItem)
    ensures var r, v := Defined(num, d), TrimSpace(d.value);
            && r.name == d.name && r.caption == d.caption && r.size == 0
            && r.value == (if d.kind == BlobKind then [] else v)
            && (r.on <==> d.kind == Switch && ToUpper(v) == [79, 78])
            && (d.kind == Number ==>
                  r.num == num(v) && r.format == d.format
                  && r.min == num(d.min) && r.max == num(d.max) && r.step == num(d.step))
            && (d.kind != Number ==>
                  r.num == 0.0 && r.format == [] && r.min == 0.0 && r.max == 0.0 && r.step == 0.0)
  {
    hide TrimSpace;
    hide ToUpper;
    hide IsOn;
    OnMeaning(d.value);
  }

  /** What the last item does, given what the earlier ones did. */
  lemma AssignLast(num: Text -> real, ms: seq<Member>, items: seq<OneItem>, i: nat)
    requires i < |ms|
    ensures items == [] ==> AssignAll(num, ms, items)[i] == ms[i]
    ensures forall v :: Assigned(num, ms[i], v).name == ms[i].name
    ensures items != [] ==>
              var init, last := items[..|items| - 1], items[|items| - 1];
              AssignAll(num, ms, items)[i] == if AssignAll(num, ms, init)[i].name == last.name
                                              then Assigned(num, ms[i], last.value)
                                              else AssignAll(num, ms, init)[i]
  {
    if items != [] {
      ReassignedBefore(num, ms, items[..|items| - 1], i, items[|items| - 1].value);
    }
  }

  /** A later assignment wipes out the earlier ones. */
  lemma {:induction false} ReassignedBefore(num: Text -> real, ms: seq<Member>, items: seq<OneItem>, i: nat, value: Text)
    requires i < |ms|
    ensures Assigned(num, AssignAll(num, ms, items)[i], value) == Assigned(num, ms[i], value)
  {
    if items != [] {
      ReassignedBefore(num, ms, items[..|items| - 1], i, value);
    }
  }

  function Tagged(m: Member, it: BlobItem): Member {
    m.(format := it.format, size := it.size)
  }

  /** One BLOB arrived: members of that name take its format and size; if there is none it is
      appended. */
  function TagOne(ms: seq<Member>, it: BlobItem): seq<Member> {
    if exists i :: 0 <= i < |ms| && ms[i].name == it.name then
      seq(|ms|, i requires 0 <= i < |ms| => if ms[i].name == it.name then Tagged(ms[i], it) else ms[i])
    else ms + [Member(it.name, [], [], 0.0, false, it.format, 0.0, 0.0, 0.0, it.size)]
  }

  function TagAll(ms: seq<Member>, items: seq<BlobItem>): seq<Member> {
    if items == [] then ms else TagOne(TagAll(ms, items[..|items| - 1]), items[|items| - 1])
  }

  /** Item k is the last one for that name. */
  predicate LastBlob(items: seq<BlobItem>, k: nat, name: Text) {
    k < |items| && items[k].name == name && forall j :: k < j < |items| ==> items[j].name != name
  }

  lemma TagOneMeaning(ms: seq<Member>, it: BlobItem)
    ensures var r := TagOne(ms, it);
            && |ms| <= |r| <= |ms| + 1
            && (|r| == |ms| <==> exists i :: 0 <= i < |ms| && ms[i].name == it.name)
            && (forall i :: 0 <= i < |ms| ==>
                  r[i] == if ms[i].name == it.name then ms[i].(format := it.format, size := it.size) else ms[i])
            && (|r| > |ms| ==> r[|ms|] == Member(it.name, [], [], 0.0, false, it.format, 0.0, 0.0, 0.0, it.size))
  {
  }

  /** Applying a BLOB set: every member so far keeps its place, and takes the format and the size of
      the last item that names it and nothing else; a name that is new is appended, once, as an
      empty member with that format and size. */
  lemma {:induction false} TagAllMeaning(ms: seq<Member>, items: seq<BlobItem>, i: nat)
    ensures |ms| <= |TagAll(ms, items)|
    ensures forall k :: 0 <= k < |items| ==> HasName(TagAll(ms, items), items[k].name)
    ensures i < |TagAll(ms, items)| ==>
              var r := TagAll(ms, items)[i];
              var was := if i < |ms| then ms[i] else Member(r.name, [], [], 0.0, false, [], 0.0, 0.0, 0.0, 0);
              && r == was.(format := r.format, size := r.size)
              && (forall k: nat :: LastBlob(items, k, r.name) ==> r.format == items[k].format && r.size == items[k].size)
              && ((forall k :: 0 <= k < |items| ==> items[k].name != r.name) ==> i < |ms| && r == was)
              && (i >= |ms| ==> forall j :: 0 <= j < i ==> TagAll(ms, items)[j].name != r.name)
  {
    hide TagAll;
    hide TagOne;
    TagLast(ms, items);
    if items != [] {
      var init, last := items[..|items| - 1], items[|items| - 1];
      var was, now := TagAll(ms, init), TagAll(ms, items);
      TagAllMeaning(ms, init, i);
      TagOneMeaning(was, last);
      forall k | 0 <= k < |items|
        ensures HasName(now, items[k].name)
      {
        if k < |init| {
          assert HasName(was, init[k].name);
          var j :| 0 <= j < |was| && was[j].name == init[k].name;
          assert now[j].name == items[k].name;
        } else if |now| > |was| {
          assert now[|was|].name == last.name;
        }
      }
      if i < |now| {
        forall k: nat | LastBlob(items, k, now[i].name)
          ensures now[i].format == items[k].format && now[i].size == items[k].size
        {
          if k < |init| {
            assert init[k].name == now[i].name != last.name;
            assert LastBlob(init, k, now[i].name);
          }
        }
        if i >= |ms| {
          forall j | 0 <= j < i
            ensures now[j].name != now[i].name
          {
            assert now[j].name == was[j].name;
          }
        }
        if forall k :: 0 <= k < |items| ==> items[k].name != now[i].name {
          assert items[|init|] == last;
          assert forall k :: 0 <= k < |init| ==> init[k] == items[k];
        }
      }
    }
  }

  predicate HasName(ms: seq<Member>, name: Text) {
    exists j :: 0 <= j < |ms| && ms[j].name == name
  }

  lemma TagLast(ms: seq<Member>, items: seq<BlobItem>)
    ensures TagAll(ms, items)
            == if items == [] then ms else TagOne(TagAll(ms, items[..|items| - 1]), items[|items| - 1])
  {
  }

  // ---- the store ----

  predicate Knows(s: Store, d: Text, n: Text) {
    d in s.devices && n in s.devices[d]
  }

  function Entry(s: Store, d: Text, n: Text): Option<Property> {
    if Knows(s, d, n) then Some(s.devices[d][n]) else None
  }

  /** The revision seen for a property; 0 when it is unknown. */
  function RevOf(e: Option<Property>): nat {
    match e case None => 0 case Some(p) => p.rev
  }

  function Rev(s: Store, d: Text, n: Text): nat {
    RevOf(Entry(s, d, n))
  }

  function Put(s: Store, p: Property): Store
    requires p.device in s.devices
  {
    s.(devices := s.devices[p.device := s.devices[p.device][p.name := p]])
  }

  function Restated(p: Property, state: Text, message: Text): Property {
    p.(state := if state != [] then state else p.state,
       message := if message != [] then message else p.message,
       rev := p.rev + 1)
  }

  function Without(order: seq<Text>, d: Text): seq<Text> {
    if order == [] then []
    else if order[0] == d then order[1..]
    else [order[0]] + Without(order[1..], d)
  }

  function ApplyDef(num: Text -> real, s: Store, m: Msg): Store
    requires m.Def?
  {
    var isNew := m.device !in s.devices;
    var s1 := if !isNew then s else
      Store(s.devices[m.device := map[]], if m.device in s.order then s.order else s.order + [m.device]);
    Put(s1, Property(m.device, m.name, m.caption, m.group, m.kind, m.state, m.perm, m.rule, [],
                     Rev(s, m.device, m.name) + 1,
                     seq(|m.defs|, i requires 0 <= i < |m.defs| => Defined(num, m.defs[i]))))
  }

  function ApplySet(num: Text -> real, s: Store, m: Msg): Store
    requires m.Set?
  {
    match Entry(s, m.device, m.name)
    case None => s
    case Some(p) =>
      s.(devices := s.devices[m.device := s.devices[m.device]
           [m.name := Restated(p, m.state, m.message).(members := AssignAll(num, p.members, m.ones))]])
  }

  function ApplyBlob(s: Store, m: Msg): Store
    requires m.Blob?
  {
    match Entry(s, m.device, m.name)
    case None => s
    case Some(p) =>
      s.(devices := s.devices[m.device := s.devices[m.device]
           [m.name := Restated(p, m.state, m.message).(members := TagAll(p.members, m.blobs))]])
  }

  function ApplyDel(s: Store, m: Msg): Store
    requires m.Del?
  {
    if m.device !in s.devices then s
    else if m.name == [] then Store(s.devices - {m.device}, Without(s.order, m.device))
    else s.(devices := s.devices[m.device := s.devices[m.device] - {m.name}])
  }

  function Apply(num: Text -> real, s: Store, m: Msg): Store {
    match m
    case Def(_, _, _, _, _, _, _, _, _) => ApplyDef(num, s, m)
    case Set(_, _, _, _, _) => ApplySet(num, s, m)
    case Blob(_, _, _, _, _) => ApplyBlob(s, m)
    case Del(_, _) => ApplyDel(s, m)
  }

  /** Whether applying m wakes the waiters. */
  predicate Signals(s: Store, m: Msg) {
    match m
    case Def(_, _, _, _, _, _, _, _, _) => true
    case Set(d, n, _, _, _) => Knows(s, d, n)
    case Blob(d, n, _, _, _) => Knows(s, d, n)
    case Del(d, _) => d in s.devices
  }

  /** A message that does not wake the waiters did not change the store. */
  lemma SilentIsNoChange(num: Text -> real, s: Store, m: Msg)
    ensures !Signals(s, m) ==> Apply(num, s, m) == s
  {
  }

  /** What a definition leaves behind: the property as defined, with an empty message and the next
      revision, and every other property as it was. */
  lemma DefReading(num: Text -> real, s: Store, m: Msg, d: Text, n: Text)
    requires m.Def?
    ensures !(d == m.device && n == m.name) ==> Entry(Apply(num, s, m), d, n) == Entry(s, d, n)
    ensures d == m.device && n == m.name ==>
              var was := if d in s.devices && n in s.devices[d] then s.devices[d][n].rev else 0;
              Entry(Apply(num, s, m), d, n)
              == Some(Property(d, n, m.caption, m.group, m.kind, m.state, m.perm, m.rule, [], was + 1,
                               seq(|m.defs|, i requires 0 <= i < |m.defs| => Defined(num, m.defs[i]))))
  {
    hide Defined;
  }

  /** What a set or a BLOB set leaves behind: a property not known stays so; a known one takes the
      state and the message that are not empty, the next revision and the members assigned, and
      keeps the rest; every other property is as it was. */
  lemma SetReading(num: Text -> real, s: Store, m: Msg, d: Text, n: Text)
    requires m.Set? || m.Blob?
    ensures Apply(num, s, m).devices.Keys == s.devices.Keys && Apply(num, s, m).order == s.order
    ensures Entry(s, m.device, m.name) == None || !(d == m.device && n == m.name) ==>
              Entry(Apply(num, s, m), d, n) == Entry(s, d, n)
    ensures Entry(s, m.device, m.name).Some? && d == m.device && n == m.name ==>
              var p := s.devices[d][n];
              Entry(Apply(num, s, m), d, n)
              == Some(Property(p.device, p.name, p.caption, p.group, p.kind, if m.state == [] then p.state else m.state,
                               p.perm, p.rule, if m.message == [] then p.message else m.message, p.rev + 1,
                               if m.Set? then AssignAll(num, p.members, m.ones) else TagAll(p.members, m.blobs)))
  {
    hide AssignAll;
    hide TagAll;
  }

  /** What a deletion leaves behind: neither the property named nor, without a name, any of the
      device's. */
  lemma DelReading(num: Text -> real, s: Store, m: Msg, d: Text, n: Text)
    requires m.Del?
    ensures Entry(Apply(num, s, m), d, n)
            == if d == m.device && (m.name == [] || n == m.name) then None else Entry(s, d, n)
  {
    hide Without;
  }

  function Replay(num: Text -> real, h: seq<Msg>): Store {
    if h == [] then EMPTY else Apply(num, Replay(num, h[..|h| - 1]), h[|h| - 1])
  }

  // ---- what every history keeps ----

  predicate NoDuplicates(s: seq<Text>) {
    forall i, j :: 0 <= i < j < |s| ==> s[i] != s[j]
  }

  predicate Filed(p: Property, d: Text, n: Text) {
    p.rev > 0 && p.device == d && p.name == n
  }

  /** The order list names exactly the stored devices, once each; every stored property has
      been counted at least once and is filed under its own names. */
  ghost predicate Coherent(s: Store) {
    && NoDuplicates(s.order)
    && (forall d :: d in s.order <==> d in s.devices)
    && (forall d, n :: Knows(s, d, n) ==> Filed(s.devices[d][n], d, n))
  }

  lemma {:induction false} WithoutMeaning(order: seq<Text>, d: Text)
    requires NoDuplicates(order)
    ensures NoDuplicates(Without(order, d))
    ensures forall x :: x in Without(order, d) <==> x in order && x != d
  {
    if order != [] {
      var rest := order[1..];
      WithoutMeaning(rest, d);
      assert order == [order[0]] + rest;
      assert order[0] !in rest;
    }
  }

  predicate DeletesDevice(m: Msg, d: Text) {
    m.Del? && m.device == d && m.name == []
  }

  /** Which devices are known after one more message, and how they are listed. */
  lemma DevicesStep(num: Text -> real, s: Store, m: Msg)
    requires Coherent(s)
    ensures var t := Apply(num, s, m);
            && (forall d :: d in t.devices <==> !DeletesDevice(m, d) && (d in s.devices || (m.Def? && m.device == d)))
            && t.order == if m.Def? && m.device !in s.devices then s.order + [m.device]
                          else if m.device in s.devices && DeletesDevice(m, m.device) then Without(s.order, m.device)
                          else s.order
  {
    hide AssignAll;
    hide TagAll;
  }

  lemma KnownStep(num: Text -> real, s: Store, m: Msg, d: Text, n: Text)
    requires Coherent(s) && Knows(Apply(num, s, m), d, n)
    ensures Filed(Apply(num, s, m).devices[d][n], d, n)
  {
    hide AssignAll;
    hide TagAll;
    hide Without;
  }

  lemma CoherentNext(num: Text -> real, s: Store, m: Msg)
    requires Coherent(s)
    ensures Coherent(Apply(num, s, m))
  {
    hide Apply;
    var t := Apply(num, s, m);
    DevicesStep(num, s, m);
    WithoutMeaning(s.order, m.device);
    forall d, n | Knows(t, d, n)
      ensures Filed(t.devices[d][n], d, n)
    {
      KnownStep(num, s, m, d, n);
    }
  }

  lemma {:induction false} AlwaysCoherent(num: Text -> real, h: seq<Msg>)
    ensures Coherent(Replay(num, h))
  {
    if h != [] {
      AlwaysCoherent(num, h[..|h| - 1]);
      CoherentNext(num, Replay(num, h[..|h| - 1]), h[|h| - 1]);
    }
  }

  // ---- revisions ----

  /** A definition, set or BLOB set of this property. */
  predicate Touches(m: Msg, d: Text, n: Text) {
    !m.Del? && m.device == d && m.name == n
  }

  predicate Deletes(m: Msg, d: Text, n: Text) {
    m.Del? && m.device == d && (m.name == [] || m.name == n)
  }

  lemma RevStep(num: Text -> real, s: Store, m: Msg, d: Text, n: Text)
    requires Coherent(s)
    ensures var r, r' := Rev(s, d, n), Rev(Apply(num, s, m), d, n);
            r' == if Deletes(m, d, n) then 0
                  else if Touches(m, d, n) && (m.Def? || r > 0) then r + 1
                  else r
  {
  }

  /** How many of h[k..] touch the property. */
  function TouchesFrom(h: seq<Msg>, k: nat, d: Text, n: Text): nat
    requires k <= |h|
    decreases |h|
  {
    if k == |h| then 0
    else TouchesFrom(h[..|h| - 1], k, d, n) + (if Touches(h[|h| - 1], d, n) then 1 else 0)
  }

  /** The property was unknown after the first k messages and has been known ever since. */
  ghost predicate LastAbsent(num: Text -> real, h: seq<Msg>, k: nat, d: Text, n: Text) {
    && k <= |h| && !Knows(Replay(num, h[..k]), d, n)
    && forall j :: k < j <= |h| ==> Knows(Replay(num, h[..j]), d, n)
  }

  lemma {:induction false} LastAbsentExists(num: Text -> real, h: seq<Msg>, d: Text, n: Text) returns (k: nat)
    ensures LastAbsent(num, h, k, d, n)
  {
    if !Knows(Replay(num, h), d, n) {
      k := |h|;
      assert h[..k] == h;
    } else {
      var init := h[..|h| - 1];
      k := LastAbsentExists(num, init, d, n);
      assert init[..k] == h[..k];
      forall j | k < j <= |h|
        ensures Knows(Replay(num, h[..j]), d, n)
      {
        if j <= |init| { assert init[..j] == h[..j]; } else { assert h[..j] == h; }
      }
    }
  }

  /** The revision is the number of definitions, sets and BLOB sets of the property since it was
      last unknown. */
  lemma {:induction false} RevCounts(num: Text -> real, h: seq<Msg>, k: nat, d: Text, n: Text)
    requires LastAbsent(num, h, k, d, n)
    ensures Rev(Replay(num, h), d, n) == TouchesFrom(h, k, d, n)
    decreases |h|
  {
    AlwaysCoherent(num, h);
    if k == |h| {
      assert h[..k] == h;
    } else {
      var init := h[..|h| - 1];
      assert forall j :: 0 <= j <= |init| ==> init[..j] == h[..j];
      RevCounts(num, init, k, d, n);
      AlwaysCoherent(num, init);
      RevStep(num, Replay(num, init), h[|h| - 1], d, n);
      assert h[..|h|] == h;
    }
  }

  /** A revision above the one read earlier means that something touched the property since,
      even if it was deleted and defined again in between. */
  lemma {:induction false} NewerMeansTouched(num: Text -> real, h: seq<Msg>, ext: seq<Msg>, d: Text, n: Text)
    requires Rev(Replay(num, h + ext), d, n) > Rev(Replay(num, h), d, n)
    ensures exists i :: 0 <= i < |ext| && Touches(ext[i], d, n)
    decreases |ext|
  {
    assert h + [] == h;
    if ext != [] {
      var init := ext[..|ext| - 1];
      assert (h + ext)[..|h + ext| - 1] == h + init;
      AlwaysCoherent(num, h + init);
      RevStep(num, Replay(num, h + init), ext[|ext| - 1], d, n);
      if !Touches(ext[|ext| - 1], d, n) {
        NewerMeansTouched(num, h, init, d, n);
        var i :| 0 <= i < |init| && Touches(init[i], d, n);
        assert Touches(ext[i], d, n);
      }
    }
  }

  /** While the property is known and not deleted, each touch raises the revision by one. */
  lemma {:induction false} TouchedMeansNewer(num: Text -> real, h: seq<Msg>, ext: seq<Msg>, d: Text, n: Text)
    requires Knows(Replay(num, h), d, n)
    requires forall i :: 0 <= i < |ext| ==> !Deletes(ext[i], d, n)
    ensures Rev(Replay(num, h + ext), d, n) == Rev(Replay(num, h), d, n) + TouchesFrom(ext, 0, d, n)
    decreases |ext|
  {
    if ext == [] {
      assert h + ext == h;
    } else {
      var init := ext[..|ext| - 1];
      assert (h + ext)[..|h + ext| - 1] == h + init;
      TouchedMeansNewer(num, h, init, d, n);
      AlwaysCoherent(num, h);
      AlwaysCoherent(num, h + init);
      RevStep(num, Replay(num, h + init), ext[|ext| - 1], d, n);
    }
  }

  // ---- arrival order ----

  /** The device was unknown after the first k messages and has been known ever since. */
  ghost predicate Arrived(num: Text -> real, h: seq<Msg>, k: nat, d: Text) {
    && k < |h| && d !in Replay(num, h[..k]).devices
    && forall j :: k < j <= |h| ==> d in Replay(num, h[..j]).devices
  }

  lemma ArrivedPrefix(num: Text -> real, h: seq<Msg>, m: Msg, k: nat, d: Text)
    requires Arrived(num, h, k, d) && d in Replay(num, h + [m]).devices
    ensures Arrived(num, h + [m], k, d)
  {
    hide Replay;
    var more := h + [m];
    assert more[..k] == h[..k];
    forall j | k < j <= |more|
      ensures d in Replay(num, more[..j]).devices
    {
      if j <= |h| { assert more[..j] == h[..j]; } else { assert more[..j] == more; }
    }
  }

  ghost predicate InArrivalOrder(num: Text -> real, h: seq<Msg>, order: seq<Text>, at: seq<nat>) {
    && |at| == |order|
    && (forall i :: 0 <= i < |order| ==> Arrived(num, h, at[i], order[i]))
    && (forall i, j :: 0 <= i < j < |at| ==> at[i] < at[j])
  }

  /** Dropping a device from the list cuts out one place. */
  lemma {:induction false} WithoutCuts(order: seq<Text>, d: Text) returns (j: nat)
    requires d in order
    ensures j < |order| && order[j] == d && Without(order, d) == order[..j] + order[j + 1..]
  {
    if order[0] == d {
      j := 0;
    } else {
      assert order == [order[0]] + order[1..];
      var i := WithoutCuts(order[1..], d);
      j := i + 1;
      assert order[..j] == [order[0]] + order[1..][..i];
      assert order[j + 1..] == order[1..][i + 1..];
      assert [order[0]] + (order[1..][..i] + order[1..][i + 1..]) == order[..j] + order[j + 1..];
    }
  }

  /** Devices are listed in the order in which they last became known. */
  lemma {:induction false} OrderIsArrival(num: Text -> real, h: seq<Msg>) returns (at: seq<nat>)
    ensures InArrivalOrder(num, h, Replay(num, h).order, at)
  {
    if h == [] {
      at := [];
    } else {
      var init, m := h[..|h| - 1], h[|h| - 1];
      assert h == init + [m];
      var was := OrderIsArrival(num, init);
      hide InArrivalOrder;
      hide Apply;
      hide Replay;
      if m.device in Replay(num, init).devices && DeletesDevice(m, m.device) {
        at := ArrivalAfterDelete(num, init, m, was);
      } else {
        at := ArrivalAfterOther(num, init, m, was);
      }
    }
  }

  lemma ReplayNext(num: Text -> real, h: seq<Msg>, m: Msg)
    ensures Replay(num, h + [m]) == Apply(num, Replay(num, h), m)
  {
    assert (h + [m])[..|h|] == h;
  }

  /** What one more message does to the list, and that all it lists is known. */
  lemma OrderStep(num: Text -> real, init: seq<Msg>, m: Msg)
    ensures var s, t := Replay(num, init), Replay(num, init + [m]);
            && t.order == (if m.Def? && m.device !in s.devices then s.order + [m.device]
                           else if m.device in s.devices && DeletesDevice(m, m.device) then Without(s.order, m.device)
                           else s.order)
            && (m.device in s.devices ==> m.device in s.order)
            && forall i :: 0 <= i < |t.order| ==> t.order[i] in t.devices
  {
    hide Apply;
    hide Replay;
    hide Without;
    AlwaysCoherent(num, init);
    AlwaysCoherent(num, init + [m]);
    DevicesStep(num, Replay(num, init), m);
    ReplayNext(num, init, m);
    var t := Replay(num, init + [m]);
    assert forall i :: 0 <= i < |t.order| ==> t.order[i] in t.order;
  }

  lemma ArrivalAfterOther(num: Text -> real, init: seq<Msg>, m: Msg, was: seq<nat>) returns (at: seq<nat>)
    requires InArrivalOrder(num, init, Replay(num, init).order, was)
    requires !(m.device in Replay(num, init).devices && DeletesDevice(m, m.device))
    ensures InArrivalOrder(num, init + [m], Replay(num, init + [m]).order, at)
  {
    hide Replay;
    hide Without;
    hide Arrived;
    hide DeletesDevice;
    var s, t := Replay(num, init), Replay(num, init + [m]);
    OrderStep(num, init, m);
    at := if m.Def? && m.device !in s.devices then was + [|init|] else was;
    forall i | 0 <= i < |at|
      ensures Arrived(num, init + [m], at[i], t.order[i]) && (i < |was| ==> at[i] < |init|)
    {
      assert t.order[i] in t.devices;
      if i < |was| {
        assert t.order[i] == s.order[i];
        ArrivedBefore(num, init, was[i], s.order[i]);
        ArrivedPrefix(num, init, m, was[i], s.order[i]);
      } else {
        ArrivesNow(num, init, m, m.device);
      }
    }
  }

  lemma ArrivedBefore(num: Text -> real, h: seq<Msg>, k: nat, d: Text)
    requires Arrived(num, h, k, d)
    ensures k < |h|
  {
  }

  lemma ArrivesNow(num: Text -> real, init: seq<Msg>, m: Msg, d: Text)
    requires d !in Replay(num, init).devices && d in Replay(num, init + [m]).devices
    ensures Arrived(num, init + [m], |init|, d)
  {
    hide Replay;
    var h := init + [m];
    assert h[..|init|] == init && h[..|h|] == h;
  }

  lemma ArrivalAfterDelete(num: Text -> real, init: seq<Msg>, m: Msg, was: seq<nat>) returns (at: seq<nat>)
    requires InArrivalOrder(num, init, Replay(num, init).order, was)
    requires m.device in Replay(num, init).devices && DeletesDevice(m, m.device)
    ensures InArrivalOrder(num, init + [m], Replay(num, init + [m]).order, at)
  {
    hide Replay;
    hide Without;
    hide Arrived;
    hide DeletesDevice;
    var s, t := Replay(num, init), Replay(num, init + [m]);
    OrderStep(num, init, m);
    var j := WithoutCuts(s.order, m.device);
    at := was[..j] + was[j + 1..];
    forall i | 0 <= i < |at|
      ensures Arrived(num, init + [m], at[i], t.order[i])
    {
      var k := if i < j then i else i + 1;
      assert t.order[i] in t.devices && t.order[i] == s.order[k] && at[i] == was[k];
      ArrivedPrefix(num, init, m, was[k], s.order[k]);
    }
  }
}
