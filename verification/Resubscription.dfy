/** The client's resubscription methods: commands sent one by one, each of which may be refused, in
    which case the method stops there. */
module Resubscription {
  import opened Bytes
  import opened Subscriptions

  /** A piece of work: from `before` having sent `sent`, to `after` having sent `sent'`. All of
      `commands` took effect if it succeeded, and a proper first part of them if it did not. */
  ghost predicate Did(before: Server, sent: seq<Command>, after: Server, sent': seq<Command>, commands: seq<Command>, ok: bool)
  {
    && sent <= sent' && sent'[|sent|..] <= commands
    && after == ApplyAll(before, sent'[|sent|..])
    && (ok <==> sent'[|sent|..] == commands)
  }

  /** A refusal stops the whole of a longer piece of work. */
  lemma DidPart(s0: Server, sent0: seq<Command>, s1: Server, sent1: seq<Command>, a: seq<Command>, b: seq<Command>)
    requires Did(s0, sent0, s1, sent1, a, false)
    ensures Did(s0, sent0, s1, sent1, a + b, false)
  {
    assert |sent1[|sent0|..]| < |a|;
  }

  lemma DidBoth(s0: Server, sent0: seq<Command>, s1: Server, sent1: seq<Command>, a: seq<Command>,
                s2: Server, sent2: seq<Command>, b: seq<Command>, ok: bool)
    requires Did(s0, sent0, s1, sent1, a, true) && Did(s1, sent1, s2, sent2, b, ok)
    ensures Did(s0, sent0, s2, sent2, a + b, ok)
  {
    assert sent2[|sent0|..] == sent1[|sent0|..] + sent2[|sent1|..];
    ApplyAppend(s0, a, sent2[|sent1|..]);
    assert sent2[|sent0|..][|a|..] == sent2[|sent1|..] && (a + b)[|a|..] == b;
  }

  /** The names in `old'` that are not in `new'`, in order. */
  method Difference(old': seq<Bytes>, new': seq<Bytes>) returns (removed: seq<Bytes>)
    ensures removed == Removed(old', new')
  {
    removed := [];
    for i := 0 to |old'|
      invariant removed + Removed(old'[i..], new') == Removed(old', new')
    {
      RemovedFrom(old', i, new');
      if old'[i] !in new' {
        Regroup(removed, [old'[i]], Removed(old'[i + 1..], new'));
        removed := removed + [old'[i]];
      } else {
        Regroup(removed, [], Removed(old'[i + 1..], new'));
      }
    }
    assert old'[|old'|..] == [] && removed + [] == removed;
  }

  lemma RemovedFrom(old': seq<Bytes>, i: nat, new': seq<Bytes>)
    requires i < |old'|
    ensures Removed(old'[i..], new') == (if old'[i] in new' then [] else [old'[i]]) + Removed(old'[i + 1..], new')
  {
    assert old'[i..][0] == old'[i] && old'[i..][1..] == old'[i + 1..];
  }

  lemma Regroup(a: seq<Bytes>, b: seq<Bytes>, c: seq<Bytes>)
    ensures a + (b + c) == a + b + c && a + [] == a
  {}

  /** One authenticated connection: what the switch has registered for it, and what was sent. */
  class Connection {
    var server: Server
    var sent: seq<Command>
    /** Whether the switch accepts the n-th command. */
    const accepts: nat -> bool

    constructor (server: Server, accepts: nat -> bool)
      ensures this.server == server && sent == [] && this.accepts == accepts
    {
      this.server, this.accepts, sent := server, accepts, [];
    }

    /** `send_command_ok`: a refused command has no effect. */
    method Send(c: Command) returns (ok: bool)
      modifies this
      ensures ok == accepts(|old(sent)|)
      ensures Did(old(server), old(sent), server, sent, [c], ok)
    {
      ok := accepts(|sent|);
      if ok {
        ApplyOne(server, c);
        server, sent := Apply(server, c), sent + [c];
        assert sent[|old(sent)|..] == [c];
      }
    }

    /** `send_subscription_events`. */
    method SendSubscriptionEvents(sub: Subscription) returns (ok: bool)
      modifies this
      ensures Did(old(server), old(sent), server, sent, Subscribe(sub), ok)
    {
      if Subscribe(sub) == [] {
        return true;
      }
      assert Subscribe(sub) == [Subscribe(sub)[0]];
      ok := Send(Subscribe(sub)[0]);
    }

    /** `apply_filters`. */
    method ApplyFilters(filters: seq<(Bytes, Bytes)>) returns (ok: bool)
      modifies this
      ensures Did(old(server), old(sent), server, sent, Filters(filters), ok)
    {
      var commands := Filters(filters);
      for i := 0 to |filters|
        invariant Did(old(server), old(sent), server, sent, commands[..i], true)
      {
        ghost var s1, sent1 := server, sent;
        ok := Send(Filter(filters[i].0, filters[i].1));
        DidBoth(old(server), old(sent), s1, sent1, commands[..i], server, sent, [commands[i]], ok);
        assert commands[..i] + [commands[i]] == commands[..i + 1];
        if !ok {
          DidPart(old(server), old(sent), server, sent, commands[..i + 1], commands[i + 1..]);
          assert commands[..i + 1] + commands[i + 1..] == commands;
          return;
        }
      }
      assert commands[..|filters|] == commands;
      ok := true;
    }

    /** `nixevent` of the names in `old'` that are not in `new'`, if any, behind `prefix`. */
    method NixDiff(old': seq<Bytes>, new': seq<Bytes>, prefix: seq<Bytes>) returns (ok: bool)
      modifies this
      ensures Did(old(server), old(sent), server, sent, Nix(Removed(old', new'), prefix), ok)
    {
      var removed := Difference(old', new');
      if removed == [] {
        return true;
      }
      ok := Send(NixEvent(prefix + removed));
    }

    /** Filters cleared and set again. */
    method ReplaceFilters(filters: seq<(Bytes, Bytes)>) returns (ok: bool)
      modifies this
      ensures Did(old(server), old(sent), server, sent, [FilterDeleteAll] + Filters(filters), ok)
    {
      ok := Send(FilterDeleteAll);
      if !ok {
        DidPart(old(server), old(sent), server, sent, [FilterDeleteAll], Filters(filters));
        return;
      }
      ghost var s1, sent1 := server, sent;
      ok := ApplyFilters(filters);
      DidBoth(old(server), old(sent), s1, sent1, [FilterDeleteAll], server, sent, Filters(filters), ok);
    }

    /** The three removals at the end of `resubscribe_from`. */
    method Remove(old': Subscription, new': Subscription) returns (ok: bool)
      modifies this
      ensures Did(old(server), old(sent), server, sent, Removals(old', new'), ok)
    {
      ghost var a := Nix(Removed(old'.events, new'.events), []);
      ghost var b := Nix(Removed(old'.rawEvents, new'.rawEvents), []);
      ghost var c := Nix(Removed(old'.customSubclasses, new'.customSubclasses), [CUSTOM]);
      ok := NixDiff(old'.events, new'.events, []);
      if !ok {
        DidPart(old(server), old(sent), server, sent, a, b + c);
        assert a + (b + c) == a + b + c;
        return;
      }
      ghost var s1, sent1 := server, sent;
      ok := NixDiff(old'.rawEvents, new'.rawEvents, []);
      DidBoth(old(server), old(sent), s1, sent1, a, server, sent, b, ok);
      if !ok {
        DidPart(old(server), old(sent), server, sent, a + b, c);
        return;
      }
      ghost var s2, sent2 := server, sent;
      ok := NixDiff(old'.customSubclasses, new'.customSubclasses, [CUSTOM]);
      DidBoth(old(server), old(sent), s2, sent2, a + b, server, sent, c, ok);
    }

    /** The new events, then the new filters: how both resubscriptions begin. */
    method SubscribeAndFilter(sub: Subscription) returns (ok: bool)
      modifies this
      ensures Did(old(server), old(sent), server, sent, Subscribe(sub) + [FilterDeleteAll] + Filters(sub.filters), ok)
    {
      ghost var filters := [FilterDeleteAll] + Filters(sub.filters);
      assert Subscribe(sub) + [FilterDeleteAll] + Filters(sub.filters) == Subscribe(sub) + filters;
      ok := SendSubscriptionEvents(sub);
      if !ok {
        DidPart(old(server), old(sent), server, sent, Subscribe(sub), filters);
        return;
      }
      ghost var s1, sent1 := server, sent;
      ok := ReplaceFilters(sub.filters);
      DidBoth(old(server), old(sent), s1, sent1, Subscribe(sub), server, sent, filters, ok);
    }

    /** `resubscribe_from`. Whether it finishes or is refused half way, the connection still receives
        what both subscriptions want; when it finishes, it receives exactly what the new one wants. */
    method ResubscribeFrom(old': Subscription, new': Subscription) returns (ok: bool)
      modifies this
      ensures Did(old(server), old(sent), server, sent, Subscriptions.ResubscribeFrom(old', new'), ok)
      ensures old(server) == Want(old') && Plain(Names(old')) && Plain(Names(new')) && NoNameStraddles(old', new') ==>
                Covers(server, Shared(old', new')) && (ok ==> server == Want(new'))
    {
      ghost var adding := Subscribe(new') + [FilterDeleteAll] + Filters(new'.filters);
      ok := SubscribeAndFilter(new');
      if ok {
        ghost var s1, sent1 := server, sent;
        ok := Remove(old', new');
        DidBoth(old(server), old(sent), s1, sent1, adding, server, sent, Removals(old', new'), ok);
      } else {
        DidPart(old(server), old(sent), server, sent, adding, Removals(old', new'));
      }
      StaysSubscribed(old(server), old(sent), server, sent, old', new', ok);
    }

    /** `resubscribe`. Refused after `noevents`, it leaves the connection receiving nothing. */
    method Resubscribe(sub: Subscription) returns (ok: bool)
      modifies this
      ensures Did(old(server), old(sent), server, sent, Subscriptions.Resubscribe(sub), ok)
      ensures ok && Plain(Names(sub)) ==> server == Want(sub)
    {
      ghost var adding := Subscribe(sub) + [FilterDeleteAll] + Filters(sub.filters);
      ghost var s0, sent0 := server, sent;
      ok := SubscribeAndFilter(sub);
      if !ok {
        DidPart(s0, sent0, server, sent, adding, [NoEvents] + Subscribe(sub));
        assert adding + ([NoEvents] + Subscribe(sub)) == Subscriptions.Resubscribe(sub);
        return;
      }
      ghost var s1, sent1 := server, sent;
      ok := Send(NoEvents);
      DidBoth(s0, sent0, s1, sent1, adding, server, sent, [NoEvents], ok);
      if !ok {
        DidPart(s0, sent0, server, sent, adding + [NoEvents], Subscribe(sub));
        return;
      }
      ghost var s2, sent2 := server, sent;
      ok := SendSubscriptionEvents(sub);
      DidBoth(s0, sent0, s2, sent2, adding + [NoEvents], server, sent, Subscribe(sub), ok);
      if Plain(Names(sub)) {
        ResubscribeReaches(s0, sub);
      }
    }
  }

  lemma StaysSubscribed(before: Server, sent: seq<Command>, after: Server, sent': seq<Command>,
                        old': Subscription, new': Subscription, ok: bool)
    requires Did(before, sent, after, sent', ResubscribeFrom(old', new'), ok)
    ensures before == Want(old') && Plain(Names(old')) && Plain(Names(new')) && NoNameStraddles(old', new') ==>
              Covers(after, Shared(old', new')) && (ok ==> after == Want(new'))
  {
    if before == Want(old') && Plain(Names(old')) && Plain(Names(new')) && NoNameStraddles(old', new') {
      var cs, n := ResubscribeFrom(old', new'), |sent'| - |sent|;
      assert sent'[|sent|..] == cs[..n];
      ResubscribeFromGapFree(old', new', n);
      ResubscribeFromExactIff(old', new');
    }
  }
}
