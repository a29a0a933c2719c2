/**
 Model of the life-times that src/common/ResourceManager.h gives to shared resources. Create() is
 not part of the class: what it returns is a parameter of the operation, and None stands for an
 exception. A new resource is never one that is still alive.
 */
module ResourceManager {
  import opened Wrappers
  import opened Sets

  type Key = int
  type Consumer = int

  /** A pointer, with 0 for NULL. */
  type Pointer = int

  const NULL: Pointer := 0

  datatype Mode = OnDemand | OnDemandHold | Persistent

  /** mode_t; a caller may pass any number. */
  function ModeOf(number: int): Option<Mode> {
    match number
    case 0 => Some(OnDemand)
    case 1 => Some(OnDemandHold)
    case 2 => Some(Persistent)
    case _ => None
  }

  datatype Outcome = Done | InvalidMode | CreateThrew

  datatype Entry = Entry(resource: Pointer, mode: Mode, consumers: set<Consumer>, customData: Pointer)

  type Entries = map<Key, Entry>

  /** Something keeps the entry. */
  predicate Needed(e: Entry) {
    e.mode != OnDemand || e.customData != NULL || e.consumers != {}
  }

  function Resources(es: Entries): set<Pointer> {
    set k | k in es && es[k].resource != NULL :: es[k].resource
  }

  /** No resource is in two entries. */
  predicate Separate(es: Entries) {
    forall j, k | j in es && k in es && j != k && es[j].resource == es[k].resource :: es[j].resource == NULL
  }

  /** What Update() does, as its environment sees it. */
  datatype Event =
    | ToBeUpdated(c: Consumer, resource: Pointer)
    | Destroyed(resource: Pointer)
    | Created(resource: Pointer)
    | Updated(c: Consumer, old_: Pointer, new_: Pointer, arg: Pointer)

  // ----- How single changes affect the set of resources -----

  lemma EntrySet(es: Entries, k: Key, e: Entry)
    requires Separate(es)
    requires e.resource != NULL ==> forall j | j in es && j != k :: es[j].resource != e.resource
    ensures Separate(es[k := e])
    ensures var own := if k in es then {es[k].resource} else {};
            Resources(es[k := e]) == Resources(es) - own + ({e.resource} - {NULL})
  {
    var es', own := es[k := e], if k in es then {es[k].resource} else {};
    forall p
      ensures p in Resources(es') <==> p in Resources(es) - own + ({e.resource} - {NULL})
    {
      if p in Resources(es) - own {
        var j :| j in es && es[j].resource == p && p != NULL;
        assert es'[j].resource == p;
      }
      if p == e.resource && p != NULL { assert es'[k].resource == p; }
    }
  }

  lemma EntryErased(es: Entries, k: Key)
    requires Separate(es) && k in es
    ensures Separate(es - {k}) && Resources(es - {k}) == Resources(es) - {es[k].resource}
  {
    forall p
      ensures p in Resources(es - {k}) <==> p in Resources(es) - {es[k].resource}
    {
      if p in Resources(es) - {es[k].resource} {
        var j :| j in es && es[j].resource == p && p != NULL;
        assert (es - {k})[j].resource == p;
      }
    }
  }

  /** A destroyed resource that is still in an entry. */
  lemma Dangling(es: Entries, live: set<Pointer>, leaked: set<Pointer>, k: Key)
    requires Separate(es) && live == Resources(es) + leaked && Resources(es) !! leaked && NULL !in leaked && k in es
    ensures live - {es[k].resource} == Resources(es) + leaked <==> es[k].resource == NULL
  {
    var p := es[k].resource;
    if p != NULL {
      assert p in Resources(es);
    } else {
      assert p !in live;
    }
  }

  class Manager {
    var entries: Entries
    ghost var live: set<Pointer>    // created and not destroyed
    ghost var leaked: set<Pointer>  // those of them that no entry refers to any more

    ghost predicate Valid()
      reads this
    {
      && Separate(entries)
      && live == Resources(entries) + leaked && Resources(entries) !! leaked && NULL !in leaked
      && forall k | k in entries :: Needed(entries[k])
    }

    constructor ()
      ensures Valid() && entries == map[] && live == {} && leaked == {}
    {
      entries, live, leaked := map[], {}, {};
    }

    /** Create() has returned something new. */
    ghost predicate Fresh(created: Option<Pointer>)
      reads this
    {
      created.Some? ==> created.value != NULL && created.value !in live
    }

    ghost predicate NeedsCreate(key: Key)
      reads this
    {
      key !in entries || entries[key].resource == NULL
    }

    /** The entry for the key, or the one that would be made for it. */
    ghost function EntryOf(key: Key): Entry
      reads this
    {
      if key in entries then entries[key] else Entry(NULL, OnDemand, {}, NULL)
    }

    /** Borrow(): None if Create() threw. */
    method Borrow(key: Key, c: Consumer, created: Option<Pointer>) returns (r: Option<Pointer>)
      requires Valid() && Fresh(created)
      modifies this
      ensures Valid() && leaked == old(leaked)
      ensures r == (if old(NeedsCreate(key)) then created else Some(old(entries)[key].resource))
      ensures r.None? ==> entries == old(entries)
      ensures r.Some? ==>
              entries == old(entries)[key := old(EntryOf(key)).(resource := r.value,
              consumers := old(EntryOf(key)).consumers + {c})]
      ensures r.Some? && key !in old(entries) ==> entries == old(entries)[key := Entry(r.value, OnDemand, {c}, NULL)]
      ensures r.Some? ==> r.value != NULL && r.value in live
    {
      if key !in entries {
        if created.None? {
          return None;
        }
        var e := Entry(created.value, OnDemand, {c}, NULL);
        assert {} + {c} == {c};
        EntrySet(entries, key, e);
        entries := entries[key := e];
        live := live + {created.value};
        return created;
      } else {
        var e := entries[key];
        if e.resource == NULL {
          if created.None? {
            return None;
          }
          e := e.(resource := created.value);
          live := live + {created.value};
        }
        e := e.(consumers := e.consumers + {c});
        EntrySet(entries, key, e);
        entries := entries[key := e];
        return Some(e.resource);
      }
    }

    /** HandBack(): found is the entry of the resource. */
    method HandBack(p: Pointer, c: Consumer) returns (ghost found: Option<Key>)
      requires Valid()
      modifies this
      ensures Valid() && leaked == old(leaked)
      ensures found.None? ==> entries == old(entries) && forall k | k in entries :: entries[k].resource != p
      ensures found.Some? ==>
                && found.value in old(entries) && old(entries)[found.value].resource == p
                && var e := old(entries)[found.value].(consumers := old(entries)[found.value].consumers - {c});
                entries == if Needed(e) then old(entries)[found.value := e] else old(entries) - {found.value}
      ensures found.Some? ==>
                var e := old(entries)[found.value];
                found.value in entries <==> e.mode != OnDemand || e.customData != NULL || e.consumers - {c} != {}
    {
      found := None;
      if k :| k in entries && entries[k].resource == p {
        found := Some(k);
        var e := entries[k].(consumers := entries[k].consumers - {c});
        if e.mode == OnDemand && e.customData == NULL && e.consumers == {} {
          Erase(k);
        } else {
          EntrySet(entries, k, e);
          entries := entries[k := e];
        }
      }
    }

    /** Removes an entry and destroys its resource, which is alive. */
    method Erase(k: Key)
      requires Valid() && k in entries
      modifies this
      ensures Valid() && leaked == old(leaked) && entries == old(entries) - {k}
      ensures live == old(live) - {old(entries)[k].resource}
      ensures old(entries)[k].resource != NULL ==> old(entries)[k].resource in old(live)
    {
      EntryErased(entries, k);
      var resource := entries[k].resource;
      assert resource != NULL ==> resource in Resources(entries);
      entries := entries - {k};
      if resource != NULL {
        live := live - {resource};
      }
    }

    method SetAvailabilityMode(key: Key, number: int, created: Option<Pointer>) returns (r: Outcome)
      requires Valid() && Fresh(created)
      modifies this
      ensures Valid() && leaked == old(leaked)
      ensures r == InvalidMode <==> number != 0 && number != 1 && number != 2
      ensures number == 0 ==>
                && EntryOf(key).mode == OnDemand && r == Done
                && (key in entries <==> old(EntryOf(key)).customData != NULL || old(EntryOf(key)).consumers != {})
      ensures number == 1 ==> key in entries && entries[key].mode == OnDemandHold && r == Done
      ensures number == 2 ==>
                && key in entries && entries[key].mode == Persistent
                && (r == CreateThrew <==> entries[key].resource == NULL)
      ensures r == InvalidMode ==> entries == old(entries) && live == old(live)
      ensures r != InvalidMode ==>
                var mode := ModeOf(number).value;
                && EntryOf(key).mode == mode
                && entries - {key} == old(entries) - {key}
                && EntryOf(key).consumers == old(EntryOf(key)).consumers
                && EntryOf(key).customData == old(EntryOf(key)).customData
                && (key in entries <==> Needed(old(EntryOf(key)).(mode := mode)))
                && (r == CreateThrew <==> mode == Persistent && old(EntryOf(key)).resource == NULL && created.None?)
                && (key in entries ==>
                      entries[key].resource ==
                      if mode == Persistent && old(EntryOf(key)).resource == NULL && created.Some? then created.value
                      else old(EntryOf(key)).resource)
    {
      var m := ModeOf(number);
      if m.None? {
        return InvalidMode;
      }
      var mode, e := m.value, Entry(NULL, m.value, {}, NULL);
      if key !in entries {
        if mode == OnDemand {
          return Done;
        }
      } else {
        e := entries[key];
        if mode == OnDemand && e.customData == NULL && e.consumers == {} {
          Erase(key);
          return Done;
        }
        e := e.(mode := mode);
      }
      r := Done;
      if e.mode == Persistent && e.resource == NULL {
        if created.Some? {
          e := e.(resource := created.value);
          live := live + {created.value};
        } else {
          r := CreateThrew;
        }
      }
      EntrySet(entries, key, e);
      entries := entries[key := e];
    }

    /** When SetCustomData() drops an entry together with a resource that is still alive. */
    ghost predicate Leaks(key: Key, data: Pointer)
      reads this
    {
      data == NULL && key in entries && entries[key].mode == OnDemand && entries[key].consumers == {}
          && entries[key].resource != NULL
    }

    method SetCustomData(key: Key, data: Pointer)
      requires Valid()
      modifies this
      ensures Valid() && live == old(live)
      ensures leaked == if old(Leaks(key, data)) then old(leaked) + {old(entries)[key].resource} else old(leaked)
      ensures EntryOf(key).customData == data
      ensures entries - {key} == old(entries) - {key}
      ensures key in entries <==> Needed(old(EntryOf(key)).(customData := data))
      ensures key in entries ==> entries[key] == old(EntryOf(key)).(customData := data)
      ensures data != NULL && key !in old(entries) ==> entries == old(entries)[key := Entry(NULL, OnDemand, {}, data)]
      ensures data == NULL && key in old(entries) ==>
                (key in entries <==> old(entries)[key].mode != OnDemand || old(entries)[key].consumers != {})
    {
      if data != NULL {
        var e := if key in entries then entries[key].(customData := data) else Entry(NULL, OnDemand, {}, data);
        EntrySet(entries, key, e);
        entries := entries[key := e];
      } else if key in entries {
        var e := entries[key];
        if e.mode == OnDemand && e.consumers == {} {
          EntryErased(entries, key);
          assert e.resource != NULL ==> e.resource in Resources(entries);
          entries := entries - {key};
          leaked := leaked + ({e.resource} - {NULL});
        } else {
          e := e.(customData := NULL);
          EntrySet(entries, key, e);
          entries := entries[key := e];
        }
      }
    }

    // ----- Update() -----

    /**
     Update(): every consumer but the one that asks is told before and after, in the same order, and gets
     back the argument `args` it has given itself. If Create() throws, nobody is told afterwards, and the entry
     is left with a pointer to the destroyed resource.
     */
    method Update(p: Pointer, asking: Consumer, created: Option<Pointer>, args: Consumer -> Pointer)
      returns (log: seq<Event>, ghost found: Option<Key>, ghost order: seq<Consumer>)
      requires Valid() && (created.Some? ==> created.value != NULL && created.value !in live - {p})
      modifies this
      ensures leaked == old(leaked)
      ensures found.None? ==>
                && Valid() && log == [] && entries == old(entries) && live == old(live)
                && forall k | k in entries :: entries[k].resource != p
      ensures found.Some? ==>
                && found.value in old(entries) && old(entries)[found.value].resource == p
                && Enumerates(order, old(entries)[found.value].consumers - {asking})
      ensures found.Some? && created.Some? ==>
                && Valid() && entries
                    == old(entries)[found.value := old(entries)[found.value].(resource := created.value)]
                && log == Announced(order, p) + [Destroyed(p), Created(created.value)]
                    + Confirmed(order, p, created.value, args)
      ensures found.Some? ==> TellsAll(log, 0, order, c => ToBeUpdated(c, p)) && |log| > |order|
      ensures found.Some? ==> log[|order|] == Destroyed(p)
      ensures found.Some? && created.Some? ==>
                && |log| == 2 * |order| + 2 && log[|order| + 1] == Created(created.value)
                && TellsAll(log, |order| + 2, order, c => Updated(c, p, created.value, args(c)))
      ensures found.Some? && created.None? ==>
                && |log| == |order| + 1
                && entries == old(entries) && live == old(live) - {p} && log == Announced(order, p) + [Destroyed(p)]
                && (Valid() <==> p == NULL)
    {
      hide Announced, Confirmed, Others, ArgsKept, Enumerates, Resources, Separate, Needed, TellsAll;
      log, found, order := [], None, [];
      if k :| k in entries && entries[k].resource == p {
        found := Some(k);
        var cs := Listing(entries[k].consumers);
        order := Others(cs, asking);
        OthersEnumerate(cs, entries[k].consumers, asking);
        var updateArgs: map<Consumer, Pointer>;
        log, updateArgs := Announce(cs, asking, p, args);
        AnnouncedTellsAll(order, p);
        if created.None? {
          TellsAllBetween([], log, [Destroyed(p)], order, c => ToBeUpdated(c, p));
          assert [] + log + [Destroyed(p)] == log + [Destroyed(p)];
          log := log + [Destroyed(p)];
          Dangling(entries, live, leaked, k);
          live := live - {p};
          return;
        }
        ReplaceResource(k, created.value);
        log := log + [Destroyed(p), Created(created.value)];
        var tail := Confirm(cs, asking, p, created.value, updateArgs, args);
        ConfirmedTellsAll(order, p, created.value, args);
        TellsAllBetween([], Announced(order, p), [Destroyed(p), Created(created.value)] + tail, order,
            c => ToBeUpdated(c, p));
        TellsAllBetween(log, tail, [], order, c => Updated(c, p, created.value, args(c)));
        assert log + tail + [] == log + tail;
        assert [] + Announced(order, p) + ([Destroyed(p), Created(created.value)] + tail) == log + tail;
        log := log + tail;
      }
    }

    /** Destroy() and Create() for one entry. */
    method ReplaceResource(k: Key, created: Pointer)
      requires Valid() && k in entries && created != NULL && created !in live - {entries[k].resource}
      modifies this
      ensures Valid() && leaked == old(leaked) && entries == old(entries)[k := old(entries)[k].(resource := created)]
      ensures live == old(live) - {old(entries)[k].resource} + {created}
    {
      var e := entries[k].(resource := created);
      assert entries[k].resource != NULL ==> entries[k].resource in Resources(entries);
      assert forall j | j in entries && j != k
             && entries[j].resource == created :: created in Resources(entries) && created != entries[k].resource;
      EntrySet(entries, k, e);
      live := live - {entries[k].resource} + {created};
      entries := entries[k := e];
    }
  }

  // ----- Notifications -----

  function Announced(cs: seq<Consumer>, p: Pointer): seq<Event> {
    if cs == [] then [] else Announced(cs[..|cs| - 1], p) + [ToBeUpdated(cs[|cs| - 1], p)]
  }

  function Confirmed(cs: seq<Consumer>, p: Pointer, q: Pointer, args: Consumer -> Pointer): seq<Event> {
    if cs == [] then [] else Confirmed(cs[..|cs| - 1], p, q, args) + [Updated(cs[|cs| - 1], p, q, args(cs[|cs| - 1]))]
  }

  /** From position `at` on, each consumer of the list is told what is for him, in the order of the list. */
  ghost predicate TellsAll(log: seq<Event>, at: nat, cs: seq<Consumer>, news: Consumer -> Event) {
    |log| >= at + |cs| && forall i | 0 <= i < |cs| :: log[at + i] == news(cs[i])
  }

  lemma {:induction false} AnnouncedTellsAll(cs: seq<Consumer>, p: Pointer)
    ensures |Announced(cs, p)| == |cs| && TellsAll(Announced(cs, p), 0, cs, c => ToBeUpdated(c, p))
    decreases |cs|
  {
    if cs != [] {
      AnnouncedTellsAll(cs[..|cs| - 1], p);
    }
  }

  lemma {:induction false} ConfirmedTellsAll(cs: seq<Consumer>, p: Pointer, q: Pointer, args: Consumer -> Pointer)
    ensures |Confirmed(cs, p, q, args)| == |cs|
    ensures TellsAll(Confirmed(cs, p, q, args), 0, cs, c => Updated(c, p, q, args(c)))
    decreases |cs|
  {
    if cs != [] {
      ConfirmedTellsAll(cs[..|cs| - 1], p, q, args);
    }
  }

  lemma TellsAllBetween(pre: seq<Event>, log: seq<Event>, post: seq<Event>, cs: seq<Consumer>,
      news: Consumer -> Event)
    requires TellsAll(log, 0, cs, news)
    ensures TellsAll(pre + log + post, |pre|, cs, news)
  {
    forall i | 0 <= i < |cs|
      ensures (pre + log + post)[|pre| + i] == news(cs[i])
    {
      assert (pre + log + post)[|pre| + i] == log[0 + i];
    }
  }

  /** The consumers of the list without the one that asks. */
  function Others(cs: seq<Consumer>, asking: Consumer): seq<Consumer> {
    if cs == [] then [] else
      var rest, c := Others(cs[..|cs| - 1], asking), cs[|cs| - 1];
      if c == asking then rest else rest + [c]
  }

  lemma OthersNext(cs: seq<Consumer>, i: nat, asking: Consumer)
    requires i < |cs|
    ensures Others(cs[..i + 1], asking) ==
            if cs[i] == asking then Others(cs[..i], asking) else Others(cs[..i], asking) + [cs[i]]
  {
    assert cs[..i + 1][..i] == cs[..i];
  }

  lemma {:induction false} OthersHold(cs: seq<Consumer>, asking: Consumer, c: Consumer)
    ensures c in Others(cs, asking) <==> c in cs && c != asking
    decreases |cs|
  {
    if cs != [] {
      var n := |cs| - 1;
      OthersHold(cs[..n], asking, c);
      assert cs == cs[..n] + [cs[n]];
    }
  }

  lemma {:induction false} OthersEnumerate(cs: seq<Consumer>, s: set<Consumer>, asking: Consumer)
    requires Enumerates(cs, s)
    ensures Enumerates(Others(cs, asking), s - {asking})
  {
    forall c
      ensures c in Others(cs, asking) <==> c in s - {asking}
    {
      OthersHold(cs, asking, c);
    }
    OthersDistinct(cs, asking);
  }

  lemma {:induction false} OthersDistinct(cs: seq<Consumer>, asking: Consumer)
    requires forall i, j | 0 <= i < j < |cs| :: cs[i] != cs[j]
    ensures var o := Others(cs, asking); forall i, j | 0 <= i < j < |o| :: o[i] != o[j]
    decreases |cs|
  {
    if cs != [] {
      var n := |cs| - 1;
      OthersDistinct(cs[..n], asking);
      OthersHold(cs[..n], asking, cs[n]);
    }
  }

  /** The first loop of Update(); arguments are kept only if they are not NULL. */
  method Announce(cs: seq<Consumer>, asking: Consumer, p: Pointer, args: Consumer -> Pointer)
    returns (log: seq<Event>, updateArgs: map<Consumer, Pointer>)
    ensures log == Announced(Others(cs, asking), p)
    ensures ArgsKept(cs, asking, updateArgs, args)
  {
    hide ArgsKept, Announced, Others;
    log, updateArgs := [], map[];
    NothingAnnounced(cs, asking, p, args);
    for i := 0 to |cs|
      invariant log == Announced(Others(cs[..i], asking), p)
      invariant ArgsKept(cs[..i], asking, updateArgs, args)
    {
      OthersNext(cs, i, asking);
      AnnouncedSnoc(Others(cs[..i], asking), cs[i], p);
      OneMoreArg(cs, i, asking, updateArgs, args);
      if cs[i] != asking {
        var arg := args(cs[i]);
        log := log + [ToBeUpdated(cs[i], p)];
        if arg != NULL {
          updateArgs := updateArgs[cs[i] := arg];
        }
      }
    }
    assert cs[..|cs|] == cs;
  }

  /** Exactly the arguments that are not NULL are kept. */
  predicate ArgsKept(cs: seq<Consumer>, asking: Consumer, updateArgs: map<Consumer, Pointer>,
      args: Consumer -> Pointer) {
    && (forall c | c in cs && c != asking :: args(c) == if c in updateArgs then updateArgs[c] else NULL)
    && (forall c | c in updateArgs :: updateArgs[c] == args(c))
  }

  lemma NothingAnnounced(cs: seq<Consumer>, asking: Consumer, p: Pointer, args: Consumer -> Pointer)
    ensures Announced(Others(cs[..0], asking), p) == [] && ArgsKept(cs[..0], asking, map[], args)
  {
  }

  lemma AnnouncedSnoc(cs: seq<Consumer>, c: Consumer, p: Pointer)
    ensures Announced(cs + [c], p) == Announced(cs, p) + [ToBeUpdated(c, p)]
  {
    assert (cs + [c])[..|cs|] == cs;
  }

  lemma OneMoreArg(cs: seq<Consumer>, i: nat, asking: Consumer, updateArgs: map<Consumer, Pointer>,
      args: Consumer -> Pointer)
    requires i < |cs| && ArgsKept(cs[..i], asking, updateArgs, args)
    ensures var c := cs[i];
            ArgsKept(cs[..i + 1], asking,
                if c != asking && args(c) != NULL then updateArgs[c := args(c)] else updateArgs, args)
  {
    assert cs[..i + 1] == cs[..i] + [cs[i]];
  }

  /** The second loop of Update(). */
  method Confirm(cs: seq<Consumer>, asking: Consumer, p: Pointer, q: Pointer, updateArgs: map<Consumer, Pointer>,
      ghost args: Consumer -> Pointer)
    returns (log: seq<Event>)
    requires ArgsKept(cs, asking, updateArgs, args)
    ensures log == Confirmed(Others(cs, asking), p, q, args)
  {
    log := [];
    for i := 0 to |cs|
      invariant log == Confirmed(Others(cs[..i], asking), p, q, args)
    {
      OthersNext(cs, i, asking);
      if cs[i] != asking {
        log := log + [Updated(cs[i], p, q, if cs[i] in updateArgs then updateArgs[cs[i]] else NULL)];
      }
    }
    assert cs[..|cs|] == cs;
  }

  // ----- A resource that is lost -----

  /** Custom data keeps an entry alive after its last consumer; taking the data away loses the resource. */
  method LeakingRun(key: Key, c: Consumer, p: Pointer, data: Pointer) returns (m: Manager)
    requires p != NULL && data != NULL
    ensures fresh(m) && m.Valid() && m.entries == map[] && m.live == {p} && m.leaked == {p}
  {
    m := new Manager();
    var r := m.Borrow(key, c, Some(p));
    m.SetCustomData(key, data);
    assert m.entries.Keys == {key} by { assert forall k | k in m.entries && k != key :: k in m.entries - {key}; }
    ghost var found := m.HandBack(p, c);
    m.SetCustomData(key, NULL);
    assert m.entries - {key} == map[];
  }

  /** A resource whose re-creation throws during Update() is destroyed, and still what the next Borrow() hands out. */
  method ThrowingUpdateRun(key: Key, c: Consumer, p: Pointer, args: Consumer -> Pointer) returns (m: Manager)
    requires p != NULL
    ensures fresh(m) && key in m.entries && m.entries[key].resource == p && m.live == {} && !m.Valid()
  {
    m := new Manager();
    var r := m.Borrow(key, c, Some(p));
    assert m.entries.Keys == {key};
    var log, found, order := m.Update(p, c, None, args);
    assert found == Some(key);
    assert m.live == {} by { OneResource(m.entries, key); }
  }

  lemma OneResource(es: Entries, key: Key)
    requires es.Keys == {key} && es[key].resource != NULL
    ensures Resources(es) == {es[key].resource}
  {
    assert es[key].resource in Resources(es);
  }
}
