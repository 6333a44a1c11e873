/** Event subscriptions: the token grammar, and replacing one subscription by another.

    The switch walks a token list with a sticky flag: until `CUSTOM` each token names an event type,
    ignoring case; from there on each token is a subclass name, verbatim. `event` adds, `nixevent`
    removes, `noevents` clears both. Tokens are already split on spaces, which names cannot hold. */
module Subscriptions {
  import opened Bytes
  import opened HeaderKeys

  /** Typed and raw event names, custom subclasses, and filters. Two typed events are the same
      event exactly when they have the same wire name. */
  datatype Subscription = Subscription(
    events: seq<Bytes>,
    rawEvents: seq<Bytes>,
    customSubclasses: seq<Bytes>,
    filters: seq<(Bytes, Bytes)>)

  const CUSTOM: Bytes := "CUSTOM"

  predicate IsCustom(name: Bytes) { Fold(name) == Fold(CUSTOM) }

  predicate IsAll(name: Bytes) { Fold(name) == Fold("ALL") }

  function WithoutCustom(names: seq<Bytes>): seq<Bytes>
  {
    if names == [] then []
    else (if IsCustom(names[0]) then [] else [names[0]]) + WithoutCustom(names[1..])
  }

  predicate HasCustom(names: seq<Bytes>)
  {
    exists i :: 0 <= i < |names| && IsCustom(names[i])
  }

  /** `order_event_tokens`: `CUSTOM` last, once, and before every subclass. */
  method OrderEventTokens(names: seq<Bytes>, subclasses: seq<Bytes>) returns (tokens: seq<Bytes>)
    ensures tokens == Ordered(names, subclasses)
  {
    tokens := [];
    var custom := false;
    for i := 0 to |names|
      invariant tokens + WithoutCustom(names[i..]) == WithoutCustom(names)
      invariant custom == HasCustom(names[..i])
    {
      assert names[i..][1..] == names[i + 1..];
      assert forall j :: 0 <= j < i ==> names[..i + 1][j] == names[..i][j];
      if IsCustom(names[i]) {
        custom := true;
        assert names[..i + 1][i] == names[i];
      } else {
        tokens := tokens + [names[i]];
      }
    }
    assert names[..|names|] == names && names[|names|..] == [];
    if custom || subclasses != [] {
      tokens := tokens + [CUSTOM] + subclasses;
    }
  }

  function Ordered(names: seq<Bytes>, subclasses: seq<Bytes>): seq<Bytes>
  {
    WithoutCustom(names) + (if HasCustom(names) || subclasses != [] then [CUSTOM] + subclasses else [])
  }

  /** What a connection is subscribed to: event types up to case, subclasses, and filters. */
  datatype Server = Server(types: set<Bytes>, subclasses: set<Bytes>, filters: seq<(Bytes, Bytes)>)

  datatype Command =
    | Event(tokens: seq<Bytes>)
    | NixEvent(tokens: seq<Bytes>)
    | NoEvents
    | FilterDeleteAll
    | Filter(header: Bytes, value: Bytes)

  /** The token walk of `event` (`adding`) or `nixevent`. */
  function Walk(s: Server, tokens: seq<Bytes>, custom: bool, adding: bool): Server
    decreases tokens
  {
    if tokens == [] then s
    else if custom then
      Walk(if adding then s.(subclasses := s.subclasses + {tokens[0]}) else s.(subclasses := s.subclasses - {tokens[0]}),
           tokens[1..], true, adding)
    else if IsCustom(tokens[0]) then Walk(s, tokens[1..], true, adding)
    else
      Walk(if adding then s.(types := s.types + {Fold(tokens[0])}) else s.(types := s.types - {Fold(tokens[0])}),
           tokens[1..], false, adding)
  }

  function Apply(s: Server, c: Command): Server
  {
    match c
    case Event(tokens) => Walk(s, tokens, false, true)
    case NixEvent(tokens) => Walk(s, tokens, false, false)
    case NoEvents => s.(types := {}, subclasses := {})
    case FilterDeleteAll => s.(filters := [])
    case Filter(h, v) => s.(filters := s.filters + [(h, v)])
  }

  function ApplyAll(s: Server, cs: seq<Command>): Server
    decreases cs
  {
    if cs == [] then s else ApplyAll(Apply(s, cs[0]), cs[1..])
  }

  // ---- The commands the client sends -----------------------------------------------------------

  function Names(sub: Subscription): seq<Bytes> { sub.events + sub.rawEvents }

  /** `send_subscription_events`: nothing for an empty subscription, `ALL` alone if asked for. */
  function Subscribe(sub: Subscription): seq<Command>
  {
    var tokens := if exists i :: 0 <= i < |sub.events| && sub.events[i] == "ALL" then ["ALL"]
                  else Ordered(Names(sub), sub.customSubclasses);
    if tokens == [] then [] else [Event(tokens)]
  }

  function Filters(filters: seq<(Bytes, Bytes)>): seq<Command>
  {
    seq(|filters|, i requires 0 <= i < |filters| => Filter(filters[i].0, filters[i].1))
  }

  /** What is in `old` and not in `new`. */
  function Removed(old': seq<Bytes>, new': seq<Bytes>): (r: seq<Bytes>)
    ensures forall x :: x in r <==> x in old' && x !in new'
  {
    if old' == [] then []
    else (if old'[0] in new' then [] else [old'[0]]) + Removed(old'[1..], new')
  }

  function Nix(removed: seq<Bytes>, prefix: seq<Bytes>): seq<Command>
  {
    if removed == [] then [] else [NixEvent(prefix + removed)]
  }

  /** Asking for everything asks for nothing else. */
  lemma AllAlone(sub: Subscription)
    requires "ALL" in sub.events
    ensures Subscribe(sub) == [Event(["ALL"])]
  {
  }

  /** The removals at the end of `resubscribe_from`. */
  function Removals(old': Subscription, new': Subscription): seq<Command>
  {
    Nix(Removed(old'.events, new'.events), [])
    + Nix(Removed(old'.rawEvents, new'.rawEvents), [])
    + Nix(Removed(old'.customSubclasses, new'.customSubclasses), [CUSTOM])
  }

  /** `resubscribe_from`: subscribe to the new, replace filters, then remove what is gone. */
  function ResubscribeFrom(old': Subscription, new': Subscription): seq<Command>
  {
    Subscribe(new') + [FilterDeleteAll] + Filters(new'.filters) + Removals(old', new')
  }

  /** `resubscribe`. */
  function Resubscribe(sub: Subscription): seq<Command>
  {
    Subscribe(sub) + [FilterDeleteAll] + Filters(sub.filters) + [NoEvents] + Subscribe(sub)
  }

  // ---- What the commands do ------------------------------------------------------------------------

  function Folded(names: seq<Bytes>): set<Bytes> { set n | n in names :: Fold(n) }

  function Members(names: seq<Bytes>): set<Bytes> { set n | n in names }

  /** The server state a subscription asks for. */
  function Want(sub: Subscription): Server
  {
    Server(Folded(Names(sub)), Members(sub.customSubclasses), sub.filters)
  }

  /** No `ALL` and no bare `CUSTOM` among event names. */
  predicate Plain(names: seq<Bytes>)
  {
    forall i :: 0 <= i < |names| ==> !IsAll(names[i]) && !IsCustom(names[i])
  }

  lemma {:induction false} WalkSubclasses(s: Server, tokens: seq<Bytes>, adding: bool)
    ensures Walk(s, tokens, true, adding)
            == s.(subclasses := if adding then s.subclasses + Members(tokens) else s.subclasses - Members(tokens))
    decreases tokens
  {
    if tokens == [] {
      assert Members(tokens) == {};
    } else {
      var s' := if adding then s.(subclasses := s.subclasses + {tokens[0]}) else s.(subclasses := s.subclasses - {tokens[0]});
      WalkSubclasses(s', tokens[1..], adding);
      assert Members(tokens) == {tokens[0]} + Members(tokens[1..]);
    }
  }

  lemma {:induction false} WalkNames(s: Server, names: seq<Bytes>, rest: seq<Bytes>, adding: bool)
    requires Plain(names)
    ensures Walk(s, names + rest, false, adding)
            == Walk(s.(types := if adding then s.types + Folded(names) else s.types - Folded(names)), rest, false, adding)
    decreases names
  {
    if names == [] {
      assert names + rest == rest && Folded(names) == {};
      assert s.types + {} == s.types && s.types - {} == s.types;
    } else {
      var s' := if adding then s.(types := s.types + {Fold(names[0])}) else s.(types := s.types - {Fold(names[0])});
      assert (names + rest)[0] == names[0] && (names + rest)[1..] == names[1..] + rest;
      assert !IsCustom(names[0]);
      WalkNames(s', names[1..], rest, adding);
      assert Folded(names) == {Fold(names[0])} + Folded(names[1..]);
      assert s.types + Folded(names) == s.types + {Fold(names[0])} + Folded(names[1..]);
      assert s.types - Folded(names) == s.types - {Fold(names[0])} - Folded(names[1..]);
    }
  }

  lemma {:induction false} PlainKept(names: seq<Bytes>)
    requires Plain(names)
    ensures WithoutCustom(names) == names && !HasCustom(names)
  {
    if names != [] {
      assert !IsCustom(names[0]);
      PlainKept(names[1..]);
    }
  }

  /** Subscribing adds exactly what is wanted. */
  lemma SubscribeAdds(s: Server, sub: Subscription)
    requires Plain(Names(sub))
    ensures ApplyAll(s, Subscribe(sub))
            == s.(types := s.types + Want(sub).types, subclasses := s.subclasses + Want(sub).subclasses)
  {
    var names, subs := Names(sub), sub.customSubclasses;
    assert forall i :: 0 <= i < |sub.events| ==> sub.events[i] == names[i];
    assert forall i :: 0 <= i < |sub.events| ==> !IsAll(sub.events[i]);
    PlainKept(names);
    var tail := if subs != [] then [CUSTOM] + subs else [];
    var tokens := names + tail;
    assert Ordered(names, subs) == tokens;
    WalkNames(s, names, tail, true);
    var s' := s.(types := s.types + Folded(names));
    if subs != [] {
      WalkSubclasses(s', subs, true);
      assert tail[0] == CUSTOM && tail[1..] == subs;
    } else {
      assert Members(subs) == {};
    }
    if tokens == [] {
      assert names == [] && Folded(names) == {};
    } else {
      ApplyOne(s, Event(tokens));
    }
  }

  lemma ApplyOne(s: Server, c: Command)
    ensures ApplyAll(s, [c]) == Apply(s, c)
  {
    assert [c][1..] == [];
  }

  lemma {:induction false} ApplyAppend(s: Server, a: seq<Command>, b: seq<Command>)
    ensures ApplyAll(s, a + b) == ApplyAll(ApplyAll(s, a), b)
    decreases a
  {
    if a == [] {
      assert a + b == b;
    } else {
      assert (a + b)[0] == a[0] && (a + b)[1..] == a[1..] + b;
      ApplyAppend(Apply(s, a[0]), a[1..], b);
    }
  }

  /** Filters are replaced whole, and nothing else moves. */
  lemma {:induction false} FiltersAppend(s: Server, filters: seq<(Bytes, Bytes)>)
    ensures ApplyAll(s, Filters(filters)) == s.(filters := s.filters + filters)
    decreases filters
  {
    if filters == [] {
      assert s.filters + filters == s.filters;
    } else {
      var s' := s.(filters := s.filters + [filters[0]]);
      assert Filters(filters)[1..] == Filters(filters[1..]);
      FiltersAppend(s', filters[1..]);
      assert s.filters + filters == s.filters + [filters[0]] + filters[1..];
    }
  }

  lemma FiltersReplaced(s: Server, filters: seq<(Bytes, Bytes)>)
    ensures ApplyAll(s, [FilterDeleteAll] + Filters(filters)) == s.(filters := filters)
  {
    ApplyAppend(s, [FilterDeleteAll], Filters(filters));
    ApplyOne(s, FilterDeleteAll);
    FiltersAppend(s.(filters := []), filters);
    assert [] + filters == filters;
  }

  lemma NixNames(s: Server, removed: seq<Bytes>)
    requires Plain(removed)
    ensures ApplyAll(s, Nix(removed, [])) == s.(types := s.types - Folded(removed))
  {
    if removed == [] {
      assert Folded(removed) == {};
    } else {
      assert [] + removed == removed && removed + [] == removed;
      WalkNames(s, removed, [], false);
      ApplyOne(s, NixEvent(removed));
    }
  }

  lemma NixSubclasses(s: Server, removed: seq<Bytes>)
    ensures ApplyAll(s, Nix(removed, [CUSTOM])) == s.(subclasses := s.subclasses - Members(removed))
  {
    if removed == [] {
      assert Members(removed) == {};
    } else {
      var tokens := [CUSTOM] + removed;
      assert tokens[0] == CUSTOM && tokens[1..] == removed;
      WalkSubclasses(s, removed, false);
      ApplyOne(s, NixEvent(tokens));
    }
  }

  lemma RemovedPlain(old': seq<Bytes>, new': seq<Bytes>)
    requires Plain(old')
    ensures Plain(Removed(old', new'))
  {
    var r := Removed(old', new');
    forall i | 0 <= i < |r| ensures !IsAll(r[i]) && !IsCustom(r[i]) {
      assert r[i] in r;
    }
  }

  /** The event types the removals name, up to case. */
  function Gone(old': Subscription, new': Subscription): set<Bytes>
  {
    Folded(Removed(old'.events, new'.events)) + Folded(Removed(old'.rawEvents, new'.rawEvents))
  }

  lemma RemovalsRemove(s: Server, old': Subscription, new': Subscription)
    requires Plain(Names(old'))
    ensures ApplyAll(s, Removals(old', new'))
            == s.(types := s.types - Gone(old', new'),
                  subclasses := s.subclasses - Members(Removed(old'.customSubclasses, new'.customSubclasses)))
  {
    var events, raw := Removed(old'.events, new'.events), Removed(old'.rawEvents, new'.rawEvents);
    var subs := Removed(old'.customSubclasses, new'.customSubclasses);
    PlainParts(old');
    RemovedPlain(old'.events, new'.events);
    RemovedPlain(old'.rawEvents, new'.rawEvents);
    ApplyAppend(s, Nix(events, []) + Nix(raw, []), Nix(subs, [CUSTOM]));
    ApplyAppend(s, Nix(events, []), Nix(raw, []));
    NixNames(s, events);
    NixNames(s.(types := s.types - Folded(events)), raw);
    assert s.types - Folded(events) - Folded(raw) == s.types - Gone(old', new');
    NixSubclasses(s.(types := s.types - Gone(old', new')), subs);
  }

  lemma PlainParts(sub: Subscription)
    requires Plain(Names(sub))
    ensures Plain(sub.events) && Plain(sub.rawEvents)
  {
    var names := Names(sub);
    assert forall i :: 0 <= i < |sub.events| ==> sub.events[i] == names[i];
    assert forall i :: 0 <= i < |sub.rawEvents| ==> sub.rawEvents[i] == names[|sub.events| + i];
  }

  // ---- Replacing a subscription ------------------------------------------------------------------------

  /** No removed name is, up to case, a name the new subscription wants: under its other list, or
      spelled in another case. */
  predicate NoNameStraddles(old': Subscription, new': Subscription)
  {
    Gone(old', new') !! Folded(Names(new'))
  }

  lemma FoldedMember(names: seq<Bytes>, x: Bytes)
    requires x in names
    ensures Fold(x) in Folded(names)
  {
  }

  /** What the old subscription holds is gone or wanted. */
  lemma OldIsGoneOrWanted(old': Subscription, new': Subscription)
    ensures Folded(Names(old')) <= Gone(old', new') + Folded(Names(new'))
    ensures Gone(old', new') <= Folded(Names(old'))
  {
    forall f | f in Folded(Names(old')) ensures f in Gone(old', new') + Folded(Names(new')) {
      var n :| n in Names(old') && Fold(n) == f;
      if n in old'.events {
        if n in new'.events {
          assert n in Names(new');
        } else {
          FoldedMember(Removed(old'.events, new'.events), n);
        }
      } else if n in new'.rawEvents {
        assert n in Names(new');
      } else {
        FoldedMember(Removed(old'.rawEvents, new'.rawEvents), n);
      }
    }
  }

  /** Where `resubscribe_from` leads from any state. */
  lemma ResubscribeFromResult(s: Server, old': Subscription, new': Subscription)
    requires Plain(Names(old')) && Plain(Names(new'))
    ensures ApplyAll(s, ResubscribeFrom(old', new'))
            == Server(s.types + Want(new').types - Gone(old', new'),
                      s.subclasses + Want(new').subclasses
                      - Members(Removed(old'.customSubclasses, new'.customSubclasses)),
                      new'.filters)
  {
    ResubscribeFromParts(s, old', new');
    var added := s.(types := s.types + Want(new').types, subclasses := s.subclasses + Want(new').subclasses,
                    filters := new'.filters);
    RemovalsRemove(added, old', new');
  }

  /** It adds, sets the filters, and removes. */
  lemma ResubscribeFromParts(s: Server, old': Subscription, new': Subscription)
    requires Plain(Names(new'))
    ensures var added := s.(types := s.types + Want(new').types, subclasses := s.subclasses + Want(new').subclasses,
                            filters := new'.filters);
            ApplyAll(s, ResubscribeFrom(old', new')) == ApplyAll(added, Removals(old', new'))
  {
    var filters := [FilterDeleteAll] + Filters(new'.filters);
    Associate(Subscribe(new'), [FilterDeleteAll], Filters(new'.filters));
    ApplyThree(s, Subscribe(new'), filters, Removals(old', new'));
    SubscribeAdds(s, new');
    FiltersReplaced(ApplyAll(s, Subscribe(new')), new'.filters);
  }

  lemma ApplyThree(s: Server, a: seq<Command>, b: seq<Command>, c: seq<Command>)
    ensures ApplyAll(s, a + b + c) == ApplyAll(ApplyAll(ApplyAll(s, a), b), c)
  {
    ApplyAppend(s, a + b, c);
    ApplyAppend(s, a, b);
  }

  lemma SubclassesExact(old': seq<Bytes>, new': seq<Bytes>)
    ensures Members(old') + Members(new') - Members(Removed(old', new')) == Members(new')
  {
  }

  lemma TypesExactIff(old': set<Bytes>, new': set<Bytes>, gone: set<Bytes>)
    requires gone <= old' <= gone + new'
    ensures old' + new' - gone == new' <==> gone !! new'
  {
    assert gone !! (old' + new' - gone);
  }

  /** Exactness: from the old subscription's state, `resubscribe_from` ends at exactly the new one,
      filters included, if and only if no name straddles. */
  lemma ResubscribeFromExactIff(old': Subscription, new': Subscription)
    requires Plain(Names(old')) && Plain(Names(new'))
    ensures ApplyAll(Want(old'), ResubscribeFrom(old', new')) == Want(new') <==> NoNameStraddles(old', new')
  {
    ResubscribeFromResult(Want(old'), old', new');
    SubclassesExact(old'.customSubclasses, new'.customSubclasses);
    OldIsGoneOrWanted(old', new');
    TypesExactIff(Folded(Names(old')), Folded(Names(new')), Gone(old', new'));
  }

  /** One name subscribed as a typed event before and as a raw one after is lost. */
  lemma StraddlingNameLost()
    ensures var old', new' := Subscription(["HEARTBEAT"], [], [], []), Subscription([], ["HEARTBEAT"], [], []);
            Plain(Names(old')) && Plain(Names(new')) && !NoNameStraddles(old', new')
            && Fold("HEARTBEAT") in Want(new').types
            && Fold("HEARTBEAT") !in ApplyAll(Want(old'), ResubscribeFrom(old', new')).types
  {
    var old', new' := Subscription(["HEARTBEAT"], [], [], []), Subscription([], ["HEARTBEAT"], [], []);
    assert Names(old') == ["HEARTBEAT"] && Names(new') == ["HEARTBEAT"];
    assert |Fold("HEARTBEAT")| == 9 && |Fold("ALL")| == 3 && |Fold(CUSTOM)| == 6;
    FoldedMember(Removed(old'.events, new'.events), "HEARTBEAT");
    FoldedMember(Names(new'), "HEARTBEAT");
    ResubscribeFromResult(Want(old'), old', new');
  }

  /** `s` delivers at least what `t` does. */
  predicate Covers(s: Server, t: Server)
  {
    s.types >= t.types && s.subclasses >= t.subclasses
  }

  /** What both subscriptions want. */
  function Shared(old': Subscription, new': Subscription): Server
  {
    Server(Want(old').types * Want(new').types, Want(old').subclasses * Want(new').subclasses, [])
  }

  /** `c` never takes away anything of `want`. */
  ghost predicate Keeps(c: Command, want: Server)
  {
    forall s :: Covers(s, want) ==> Covers(Apply(s, c), want)
  }

  ghost predicate AllKeep(cs: seq<Command>, want: Server)
  {
    forall i :: 0 <= i < |cs| ==> Keeps(cs[i], want)
  }

  lemma {:induction false} PrefixCovers(s: Server, cs: seq<Command>, n: nat, want: Server)
    requires n <= |cs| && AllKeep(cs, want) && Covers(s, want)
    ensures Covers(ApplyAll(s, cs[..n]), want)
    decreases n
  {
    if n > 0 {
      assert Keeps(cs[0], want);
      assert cs[..n][0] == cs[0] && cs[..n][1..] == cs[1..][..n - 1];
      forall i | 0 <= i < |cs[1..]| ensures Keeps(cs[1..][i], want) {
        assert Keeps(cs[i + 1], want);
      }
      PrefixCovers(Apply(s, cs[0]), cs[1..], n - 1, want);
    }
  }

  lemma {:induction false} WalkAdds(s: Server, tokens: seq<Bytes>, custom: bool, want: Server)
    requires Covers(s, want)
    ensures Covers(Walk(s, tokens, custom, true), want)
    decreases tokens
  {
    if tokens != [] {
      var s' := if custom then s.(subclasses := s.subclasses + {tokens[0]})
                else if IsCustom(tokens[0]) then s
                else s.(types := s.types + {Fold(tokens[0])});
      WalkAdds(s', tokens[1..], custom || IsCustom(tokens[0]), want);
    }
  }

  lemma AddingKeeps(c: Command, want: Server)
    requires c.Event? || c.FilterDeleteAll? || c.Filter?
    ensures Keeps(c, want)
  {
    forall s | Covers(s, want) ensures Covers(Apply(s, c), want) {
      if c.Event? {
        WalkAdds(s, c.tokens, false, want);
      }
    }
  }

  lemma NixNamesKeeps(removed: seq<Bytes>, want: Server)
    requires Plain(removed) && Folded(removed) !! want.types
    ensures AllKeep(Nix(removed, []), want)
  {
    if removed != [] {
      var c := Nix(removed, [])[0];
      forall s | Covers(s, want) ensures Covers(Apply(s, c), want) {
        NixNames(s, removed);
        ApplyOne(s, c);
      }
    }
  }

  lemma NixSubclassesKeeps(removed: seq<Bytes>, want: Server)
    requires Members(removed) !! want.subclasses
    ensures AllKeep(Nix(removed, [CUSTOM]), want)
  {
    if removed != [] {
      var c := Nix(removed, [CUSTOM])[0];
      forall s | Covers(s, want) ensures Covers(Apply(s, c), want) {
        NixSubclasses(s, removed);
        ApplyOne(s, c);
      }
    }
  }

  lemma AllKeepAppend(a: seq<Command>, b: seq<Command>, want: Server)
    requires AllKeep(a, want) && AllKeep(b, want)
    ensures AllKeep(a + b, want)
  {
  }

  /** With no name straddling, no command of `resubscribe_from` takes anything the new one wants. */
  lemma ResubscribeFromKeeps(old': Subscription, new': Subscription, want: Server)
    requires Plain(Names(old')) && NoNameStraddles(old', new') && Covers(Want(new'), want)
    ensures AllKeep(ResubscribeFrom(old', new'), want)
  {
    var adding := Subscribe(new') + [FilterDeleteAll] + Filters(new'.filters);
    forall i | 0 <= i < |adding| ensures Keeps(adding[i], want) {
      AddingKeeps(adding[i], want);
    }
    PlainParts(old');
    RemovedPlain(old'.events, new'.events);
    RemovedPlain(old'.rawEvents, new'.rawEvents);
    var events, raw := Nix(Removed(old'.events, new'.events), []), Nix(Removed(old'.rawEvents, new'.rawEvents), []);
    var subs := Nix(Removed(old'.customSubclasses, new'.customSubclasses), [CUSTOM]);
    NixNamesKeeps(Removed(old'.events, new'.events), want);
    NixNamesKeeps(Removed(old'.rawEvents, new'.rawEvents), want);
    NixSubclassesKeeps(Removed(old'.customSubclasses, new'.customSubclasses), want);
    AllKeepAppend(events, raw, want);
    AllKeepAppend(events + raw, subs, want);
    AllKeepAppend(adding, Removals(old', new'), want);
  }

  /** Gap-free resubscription: with no name straddling, at every moment between the commands of
      `resubscribe_from` the connection receives what both subscriptions want, and from the moment
      the subscribing command is through it receives everything the new one wants. */
  lemma ResubscribeFromGapFree(old': Subscription, new': Subscription, n: nat)
    requires Plain(Names(old')) && Plain(Names(new')) && NoNameStraddles(old', new')
    requires n <= |ResubscribeFrom(old', new')|
    ensures var s := ApplyAll(Want(old'), ResubscribeFrom(old', new')[..n]);
            Covers(s, Shared(old', new')) && (n >= |Subscribe(new')| ==> Covers(s, Want(new')))
  {
    var cs, k := ResubscribeFrom(old', new'), |Subscribe(new')|;
    ResubscribeFromKeeps(old', new', Shared(old', new'));
    PrefixCovers(Want(old'), cs, n, Shared(old', new'));
    if n >= k {
      SubscribeAdds(Want(old'), new');
      ResubscribeFromKeeps(old', new', Want(new'));
      assert cs[..k] == Subscribe(new');
      SuffixCovers(Want(old'), cs, k, n, Want(new'));
    }
  }

  lemma SuffixCovers(s: Server, cs: seq<Command>, k: nat, n: nat, want: Server)
    requires k <= n <= |cs| && AllKeep(cs, want) && Covers(ApplyAll(s, cs[..k]), want)
    ensures Covers(ApplyAll(s, cs[..n]), want)
  {
    var rest := cs[k..];
    assert cs[..n] == cs[..k] + rest[..n - k];
    ApplyAppend(s, cs[..k], rest[..n - k]);
    forall i | 0 <= i < |rest| ensures Keeps(rest[i], want) {
      assert Keeps(cs[k + i], want);
    }
    PrefixCovers(ApplyAll(s, cs[..k]), rest, n - k, want);
  }

  /** The part of `resubscribe` before its last command leaves nothing but the new filters. */
  lemma ClearedFirst(s: Server, sub: Subscription)
    requires Plain(Names(sub))
    ensures ApplyAll(s, Subscribe(sub) + [FilterDeleteAll] + Filters(sub.filters) + [NoEvents])
            == Server({}, {}, sub.filters)
  {
    var filters := [FilterDeleteAll] + Filters(sub.filters);
    assert Subscribe(sub) + [FilterDeleteAll] + Filters(sub.filters) == Subscribe(sub) + filters;
    ApplyAppend(s, Subscribe(sub) + filters, [NoEvents]);
    ApplyAppend(s, Subscribe(sub), filters);
    FiltersReplaced(ApplyAll(s, Subscribe(sub)), sub.filters);
    ApplyOne(ApplyAll(s, Subscribe(sub) + filters), NoEvents);
  }

  /** `resubscribe` reaches the new subscription from any state, through a state that receives
      nothing. */
  lemma ResubscribeReaches(s: Server, sub: Subscription)
    requires Plain(Names(sub))
    ensures ApplyAll(s, Resubscribe(sub)) == Want(sub)
    ensures exists n :: 0 <= n <= |Resubscribe(sub)|
                        && ApplyAll(s, Resubscribe(sub)[..n]) == Server({}, {}, sub.filters)
  {
    var first := Subscribe(sub) + [FilterDeleteAll] + Filters(sub.filters) + [NoEvents];
    ClearedFirst(s, sub);
    assert Resubscribe(sub)[..|first|] == first;
    ApplyAppend(s, first, Subscribe(sub));
    SubscribeAdds(Server({}, {}, sub.filters), sub);
  }
}
