/** Devices registered while the server starts: AddDevice against the start part of Serve. */
module Startup {
  import opened ByteText
  import opened Runs

  datatype Device = Device(name: bytes, starter: bool)

  /** `todo` is the part of Serve's snapshot it has still to go through; `started` the Start calls
      made, by Serve or by AddDevice. */
  datatype Registry = Registry(devices: map<bytes, Device>, order: seq<Device>, serving: bool,
                               todo: seq<Device>, started: seq<Device>)

  const EMPTY := Registry(map[], [], false, [], [])

  datatype Event =
    | Add(d: Device)
    | ListenFailed
    | Listening
    | StartNext

  function Starting(d: Device): seq<Device> {
    if d.starter then [d] else []
  }

  function Added(r: Registry, d: Device): Registry {
    if d.name in r.devices then r
    else r.(devices := r.devices[d.name := d], order := r.order + [d],
            started := if r.serving then r.started + Starting(d) else r.started)
  }

  /** One Serve that gets as far as listening; any number that do not. */
  function Step(r: Registry, e: Event): Option<Registry> {
    match e
    case Add(d) => Some(Added(r, d))
    case ListenFailed => Some(r)
    case Listening => if r.serving then None else Some(r.(serving := true, todo := r.order))
    case StartNext =>
      if r.todo == [] then None
      else Some(r.(todo := r.todo[1..], started := r.started + Starting(r.todo[0])))
  }

  function Starters(ds: seq<Device>): seq<Device> {
    if ds == [] then [] else Starters(ds[..|ds| - 1]) + Starting(ds[|ds| - 1])
  }

  lemma StartersSnoc(ds: seq<Device>, d: Device)
    ensures Starters(ds + [d]) == Starters(ds) + Starting(d)
  {
    assert (ds + [d])[..|ds|] == ds;
  }

  lemma {:induction false} StartersHead(ds: seq<Device>)
    requires ds != []
    ensures Starters(ds) == Starting(ds[0]) + Starters(ds[1..])
  {
    hide Starters;
    hide Starting;
    var last := ds[|ds| - 1];
    StartersNone();
    if |ds| == 1 {
      assert ds == [] + [last] && ds[1..] == [];
      StartersSnoc([], last);
    } else {
      var init, mid := ds[..|ds| - 1], ds[1..|ds| - 1];
      StartersHead(init);
      assert init[1..] == mid && ds == init + [last] && ds[1..] == mid + [last];
      StartersSnoc(init, last);
      StartersSnoc(mid, last);
    }
  }

  lemma StartersNone()
    ensures Starters([]) == []
  {
  }

  lemma {:induction false} StartersAre(ds: seq<Device>, d: Device)
    ensures multiset(Starters(ds))[d] == if d.starter then multiset(ds)[d] else 0
  {
    if ds != [] {
      var init := ds[..|ds| - 1];
      StartersAre(init, d);
      assert ds == init + [ds[|ds| - 1]];
    }
  }

  // ---- what every run keeps ----

  ghost predicate NamesUnique(r: Registry) {
    && (forall i, j :: 0 <= i < j < |r.order| ==> r.order[i].name != r.order[j].name)
    && (forall i :: 0 <= i < |r.order| ==> r.order[i].name in r.devices && r.devices[r.order[i].name] == r.order[i])
    && (forall n :: n in r.devices ==> r.devices[n] in r.order && r.devices[n].name == n)
  }

  /** Between them, the starts made and the starts Serve has still to make are those of the
      registered Starters. */
  ghost predicate Accounted(r: Registry) {
    if r.serving then multiset(r.started) + multiset(Starters(r.todo)) == multiset(Starters(r.order))
    else r.started == [] && r.todo == []
  }

  ghost predicate Inv(r: Registry) {
    NamesUnique(r) && Accounted(r)
  }

  lemma NamesAfterAdd(r: Registry, d: Device)
    requires NamesUnique(r)
    ensures NamesUnique(Added(r, d))
  {
    hide Starting;
    var t := Added(r, d);
    if d.name !in r.devices {
      assert forall i :: 0 <= i < |r.order| ==> t.order[i] == r.order[i];
      assert t.order[|r.order|] == d;
      forall n | n in t.devices
        ensures t.devices[n] in t.order && t.devices[n].name == n
      {
        assert n != d.name ==> r.devices[n] in r.order;
      }
    }
  }

  lemma AddedKeeps(r: Registry, d: Device)
    requires Inv(r)
    ensures Inv(Added(r, d))
  {
    hide NamesUnique;
    hide Starters;
    hide Starting;
    NamesAfterAdd(r, d);
    StartersSnoc(r.order, d);
  }

  lemma InvNext(r: Registry, e: Event)
    requires Inv(r) && Step(r, e).Some?
    ensures Inv(Step(r, e).value)
  {
    match e {
      case Add(d) => AddedKeeps(r, d);
      case ListenFailed =>
      case Listening =>
      case StartNext => StartersHead(r.todo);
    }
  }

  lemma Reachable(events: seq<Event>)
    requires Exec(Step, EMPTY, events).Some?
    ensures Inv(Exec(Step, EMPTY, events).value)
  {
    forall r: Registry, e: Event | Inv(r) && Step(r, e).Some?
      ensures Inv(Step(r, e).value)
    {
      InvNext(r, e);
    }
    Kept(Step, Inv, EMPTY, events);
  }

  lemma {:induction false} OnceEach(ds: seq<Device>, d: Device)
    requires forall i, j :: 0 <= i < j < |ds| ==> ds[i].name != ds[j].name
    ensures multiset(ds)[d] == if d in ds then 1 else 0
  {
    if ds != [] {
      var init, last := ds[..|ds| - 1], ds[|ds| - 1];
      assert ds == init + [last];
      OnceEach(init, d);
    }
  }

  /** In every interleaving names stay unique, nothing is ever started twice, nothing that is not
      a registered Starter is started, and once Serve has gone through its snapshot every
      registered Starter has been started exactly once. */
  lemma StartedExactlyOnce(events: seq<Event>, d: Device)
    requires Exec(Step, EMPTY, events).Some?
    ensures var r := Exec(Step, EMPTY, events).value;
            && (forall i, j :: 0 <= i < j < |r.order| ==> r.order[i].name != r.order[j].name)
            && multiset(r.started)[d] <= (if d in r.order && d.starter then 1 else 0)
            && (r.serving && r.todo == [] ==> multiset(r.started)[d] == if d in r.order && d.starter then 1 else 0)
  {
    Reachable(events);
    var r := Exec(Step, EMPTY, events).value;
    OnceEach(r.order, d);
    StartersAre(r.order, d);
    StartersAre(r.todo, d);
  }

  /** Event i is the first to offer a device of this name. */
  predicate FirstOffer(events: seq<Event>, i: nat, d: Device) {
    i < |events| && events[i] == Add(d) && forall j :: 0 <= j < i && events[j].Add? ==> events[j].d.name != d.name
  }

  lemma NamesStep(r: Registry, e: Event)
    requires Step(r, e).Some?
    ensures var t := Step(r, e).value;
            && t.devices.Keys == (if e.Add? then r.devices.Keys + {e.d.name} else r.devices.Keys)
            && t.order == (if e.Add? && e.d.name !in r.devices then r.order + [e.d] else r.order)
  {
    hide Starting;
  }

  /** A device of this name has been offered. */
  predicate Offered(events: seq<Event>, name: bytes) {
    exists i :: 0 <= i < |events| && events[i].Add? && events[i].d.name == name
  }

  lemma OfferedNext(events: seq<Event>, e: Event, name: bytes)
    ensures Offered(events + [e], name) <==> Offered(events, name) || (e.Add? && e.d.name == name)
  {
    var more := events + [e];
    assert more[|events|] == e;
    if i :| 0 <= i < |events| && events[i].Add? && events[i].d.name == name {
      assert more[i].Add? && more[i].d.name == name;
    }
  }

  lemma FirstNext(events: seq<Event>, e: Event, d: Device)
    ensures (exists i: nat :: FirstOffer(events + [e], i, d)) <==>
              (exists i: nat :: FirstOffer(events, i, d)) || (e == Add(d) && !Offered(events, d.name))
  {
    var more := events + [e];
    assert more[|events|] == e && forall i :: 0 <= i < |events| ==> more[i] == events[i];
    forall i: nat | i < |events|
      ensures FirstOffer(more, i, d) <==> FirstOffer(events, i, d)
    {
    }
    assert FirstOffer(more, |events|, d) <==> e == Add(d) && !Offered(events, d.name);
    hide Offered;
  }

  /** The registered devices are those that were the first to be offered under their names. */
  lemma {:induction false} RegisteredAreFirst(events: seq<Event>, d: Device)
    requires Exec(Step, EMPTY, events).Some?
    ensures var r := Exec(Step, EMPTY, events).value;
            && (d.name in r.devices <==> Offered(events, d.name))
            && (d in r.order <==> exists i: nat :: FirstOffer(events, i, d))
  {
    hide Step;
    if events != [] {
      var init, e := events[..|events| - 1], events[|events| - 1];
      RegisteredAreFirst(init, d);
      NamesStep(Exec(Step, EMPTY, init).value, e);
      assert events == init + [e];
      OfferedNext(init, e, d.name);
      FirstNext(init, e, d);
      hide FirstOffer;
      hide Offered;
    }
  }

  lemma RefusedView(r: Registry, d: Device)
    ensures d.name in r.devices ==> Added(r, d) == r
  {
  }

  lemma AddedView(r: Registry, d: Device, t: Registry)
    requires d.name !in r.devices && t.serving == r.serving && t.todo == r.todo
    requires t.devices == r.devices[d.name := d] && t.order == r.order + [d]
    requires t.started == if r.serving && d.starter then r.started + [d] else r.started
    ensures t == Added(r, d)
  {
    assert r.started + [] == r.started;
  }

  lemma NameTaken(r: Registry, d: Device)
    requires Inv(r)
    ensures d.name in r.devices <==> exists i :: 0 <= i < |r.order| && r.order[i].name == d.name
  {
  }

  /** After any run a device may be added, and listening may fail and leave all as it was; Serve gets to
      listen once, and then has a next device to look at until it has been through its list. */
  lemma AlwaysOpen(events: seq<Event>, d: Device)
    requires Exec(Step, EMPTY, events).Some?
    ensures var r := Exec(Step, EMPTY, events).value;
            && Step(r, Add(d)).Some? && Step(r, ListenFailed) == Some(r)
            && (Step(r, Listening).Some? <==> !r.serving)
            && (Step(r, StartNext).Some? <==> r.serving && r.todo != [])
  {
    Reachable(events);
    hide Starting;
  }

  // ---- the server's own state ----

  class Server {
    var devices: map<bytes, Device>
    var order: seq<Device>
    var serving: bool
    ghost var todo: seq<Device>
    ghost var started: seq<Device>

    ghost function View(): Registry
      reads this
    {
      Registry(devices, order, serving, todo, started)
    }

    ghost predicate Valid()
      reads this
    {
      Inv(View())
    }

    constructor ()
      ensures Valid() && View() == EMPTY
    {
      devices, order, serving := map[], [], false;
      todo, started := [], [];
    }

    method AddDevice(d: Device) returns (ok: bool)
      requires Valid()
      modifies this
      ensures Valid() && View() == Added(old(View()), d)
      ensures ok <==> forall i :: 0 <= i < |old(order)| ==> old(order)[i].name != d.name
      ensures order == (if ok then old(order) + [d] else old(order)) && serving == old(serving) && todo == old(todo)
      ensures started == (if ok && old(serving) && d.starter then old(started) + [d] else old(started))
    {
      ghost var was := View();
      AddedKeeps(was, d);
      NameTaken(was, d);
      RefusedView(was, d);
      hide *;
      if d.name in devices {
        assert View() == was;
        return false;
      }
      devices := devices[d.name := d];
      order := order + [d];
      if serving && d.starter {
        started := started + [d];
      }
      AddedView(was, d, View());
      ok := true;
    }

    /** The critical section of Serve, once it is listening. */
    method Publish() returns (devs: seq<Device>)
      requires Valid() && !serving
      modifies `serving, `todo
      ensures Valid() && Step(old(View()), Listening) == Some(View()) && devs == todo
    {
      InvNext(View(), Listening);
      serving := true;
      devs := order;
      todo := order;
    }

    /** Serve's loop over its snapshot, with no AddDevice in between. */
    method StartAll(devs: seq<Device>)
      requires Valid() && serving && devs == todo
      modifies `todo, `started
      ensures Valid() && todo == [] && started == old(started) + Starters(devs)
    {
      hide Inv;
      hide Starters;
      var i := 0;
      assert devs[..0] == [];
      StartersNone();
      while i < |devs|
        invariant 0 <= i <= |devs|
        invariant Valid() && todo == devs[i..] && started == old(started) + Starters(devs[..i])
      {
        ghost var was := View();
        InvNext(was, StartNext);
        assert devs[..i + 1] == devs[..i] + [devs[i]];
        StartersSnoc(devs[..i], devs[i]);
        assert started + [] == started;
        started := if devs[i].starter then started + [devs[i]] else started;
        todo := todo[1..];
        assert Step(was, StartNext) == Some(View());
        i := i + 1;
      }
      assert devs[..|devs|] == devs;
    }
  }
}
