/**
 * What a triggering message turns into: the groups whose words it matches
 * (`_check_words`) and, for each such group, the sends its stored targets
 * expand to (`_notify_words`, with the bot check of `_send_to_member`).
 * A `Send` is what one send task delivers; the embed and the transport are
 * not part of it. The cog passes the queued sends through its rate limiter
 * one at a time (`Cog.Snitch.Deliver`).
 */
module Notify {
  import opened Wrappers
  import opened Guilds
  import opened Matching
  import opened Templating
  import opened Groups

  /** The prefix a channel notification carries. */
  const EveryonePrefix: string := "@everyone "

  /** One queued send task. */
  datatype Send = ChannelSend(channel: Channel, content: string) | DirectMessage(recipient: Member, content: string)

  /** `_send_to_member`: a bot account is never sent anything. */
  function SendToMember(m: Member, body: string): (r: seq<Send>)
    ensures |r| <= 1
    ensures r != [] <==> !m.bot
    ensures forall s :: s in r ==> s == DirectMessage(m, body)
  {
    if m.bot then [] else [DirectMessage(m, body)]
  }

  /** One DM per member of `ms` that is not a bot, in list order. */
  function DirectMessages(ms: seq<Member>, body: string): (r: seq<Send>)
    ensures forall s :: s in r ==> s.DirectMessage? && s.recipient in ms && !s.recipient.bot && s.content == body
    ensures forall m :: m in ms && !m.bot ==> DirectMessage(m, body) in r
    decreases |ms|
  {
    if ms == [] then []
    else
      var last := ms[|ms| - 1];
      assert ms == ms[..|ms| - 1] + [last];
      DirectMessages(ms[..|ms| - 1], body) + SendToMember(last, body)
  }

  /** The members of `ms` that are not bots, in list order. */
  function Humans(ms: seq<Member>): seq<Member>
    decreases |ms|
  {
    if ms == [] then []
    else
      var last := ms[|ms| - 1];
      Humans(ms[..|ms| - 1]) + (if last.bot then [] else [last])
  }

  /** Exactly one DM for each human member, in order. */
  lemma {:induction false} DirectMessagesOnePerHuman(ms: seq<Member>, body: string)
    ensures var r := DirectMessages(ms, body);
            && |r| == |Humans(ms)|
            && forall j :: 0 <= j < |r| ==> r[j] == DirectMessage(Humans(ms)[j], body)
    decreases |ms|
  {
    if ms != [] {
      DirectMessagesOnePerHuman(ms[..|ms| - 1], body);
    }
  }

  /** The sends one stored target expands to; anything that no longer resolves expands to nothing. */
  function TargetSends(g: Guild, t: Target, body: string): (r: seq<Send>)
    ensures t.kind == ChannelType(TextChannel) ==>
              && |r| <= 1
              && (r != [] <==> exists j :: 0 <= j < |g.channels| && g.channels[j].id == t.id)
              && forall s :: s in r ==> (s.ChannelSend? && s.channel in g.channels && s.channel.id == t.id
                                         && s.content == EveryonePrefix + body)
    ensures t.kind.ChannelType? && t.kind != ChannelType(TextChannel) ==> r == []
    ensures t.kind == MemberType ==>
              && |r| <= 1
              && (r != [] <==> GetMember(g, t.id).Some? && !GetMember(g, t.id).value.bot)
              && (NoMemberWithId(g, t.id) ==> r == [])
              && forall s :: s in r ==> (s.DirectMessage? && s.recipient in g.members && s.recipient.id == t.id
                                         && s.content == body)
    ensures t.kind == RoleType ==>
              match GetRole(g, t.id)
              case None => r == []
              case Some(role) => r == DirectMessages(RoleMembers(g, role), body)
  {
    match t.kind
    case ChannelType(kind) =>
      if kind == TextChannel then
        (match GetChannel(g, t.id)
         case Some(c) => [ChannelSend(c, EveryonePrefix + body)]
         case None => [])
      else []
    case MemberType =>
      (match GetMember(g, t.id)
       case Some(m) => SendToMember(m, body)
       case None => [])
    case RoleType =>
      (match GetRole(g, t.id)
       case Some(role) => DirectMessages(RoleMembers(g, role), body)
       case None => [])
  }

  /** All send tasks, target by target in the order the stored targets are iterated. */
  function ExpandAll(g: Guild, targets: seq<Target>, body: string): (r: seq<Send>)
    ensures forall s :: s in r && s.DirectMessage? ==> s.recipient in g.members && !s.recipient.bot && s.content == body
    ensures forall s :: s in r && s.ChannelSend? ==> s.channel in g.channels && s.content == EveryonePrefix + body
    decreases |targets|
  {
    if targets == [] then []
    else
      var t := targets[|targets| - 1];
      ExpandTargetInGuild(g, t, body);
      ExpandAll(g, targets[..|targets| - 1], body) + TargetSends(g, t, body)
  }

  /** Every send of one target goes to a non-bot member or a channel of the guild. */
  lemma ExpandTargetInGuild(g: Guild, t: Target, body: string)
    ensures forall s :: s in TargetSends(g, t, body) && s.DirectMessage? ==>
              s.recipient in g.members && !s.recipient.bot && s.content == body
    ensures forall s :: s in TargetSends(g, t, body) && s.ChannelSend? ==>
              s.channel in g.channels && s.content == EveryonePrefix + body
  {
    if t.kind == RoleType && GetRole(g, t.id).Some? {
      var ms := RoleMembers(g, GetRole(g, t.id).value);
      assert forall m :: m in ms ==> m in g.members;
    }
  }

  /** A member target whose member is gone, or a role target whose role is gone, sends nothing. */
  lemma UnresolvedTargetSendsNothing(g: Guild, t: Target, body: string)
    requires t.kind == MemberType || t.kind == RoleType || t.kind.ChannelType?
    requires NoMemberWithId(g, t.id) && NoRoleWithId(g, t.id) && NoChannelWithId(g, t.id)
    ensures TargetSends(g, t, body) == []
  {
  }

  /** One more member of the role: its DM, if any, follows the earlier ones. */
  lemma DirectMessagesStep(ms: seq<Member>, j: nat, body: string)
    requires j < |ms|
    ensures DirectMessages(ms[..j + 1], body) == DirectMessages(ms[..j], body) + SendToMember(ms[j], body)
  {
    assert ms[..j + 1][..j] == ms[..j];
  }

  /** One more stored target: its sends follow those of the earlier targets. */
  lemma ExpandAllStep(g: Guild, targets: seq<Target>, i: nat, body: string)
    requires i < |targets|
    ensures ExpandAll(g, targets[..i + 1], body) == ExpandAll(g, targets[..i], body) + TargetSends(g, targets[i], body)
  {
    assert targets[..i + 1][..i] == targets[..i];
  }

  /** The tasks `_notify_words` queues for one stored target; a role queues one per current member. */
  method QueueTarget(g: Guild, t: Target, body: string) returns (batch: seq<Send>)
    ensures batch == TargetSends(g, t, body)
  {
    batch := [];
    match t.kind {
      case ChannelType(kind) =>
        if kind == TextChannel {
          var chan := GetChannel(g, t.id);
          if chan.Some? {
            batch := [ChannelSend(chan.value, EveryonePrefix + body)];
          }
        }
      case MemberType =>
        var member := GetMember(g, t.id);
        if member.Some? {
          batch := SendToMember(member.value, body);
        }
      case RoleType =>
        var role := GetRole(g, t.id);
        if role.Some? {
          var ms := RoleMembers(g, role.value);
          for j := 0 to |ms|
            invariant batch == DirectMessages(ms[..j], body)
          {
            DirectMessagesStep(ms, j, body);
            batch := batch + SendToMember(ms[j], body);
          }
          assert ms[..|ms|] == ms;
        }
    }
  }

  /**
   * `_notify_words`: render the body once, then queue the send tasks of each
   * target in turn.
   */
  method NotifyWords(g: Guild, targets: seq<Target>, words: seq<string>, message: Option<string>,
                     author: string, channelName: string)
    returns (sends: seq<Send>)
    ensures sends == ExpandAll(g, targets, Render(message, author, words, g.name, channelName))
  {
    var body := Render(message, author, words, g.name, channelName);
    sends := [];
    for i := 0 to |targets|
      invariant sends == ExpandAll(g, targets[..i], body)
    {
      var batch := QueueTarget(g, targets[i], body);
      ExpandAllStep(g, targets, i, body);
      sends := sends + batch;
    }
    assert targets[..|targets|] == targets;
  }

  /**
   * `_check_words` on one message: the groups it triggers, each with its set
   * of matched strings. A group with no words builds no pattern.
   */
  function Triggered(groups: map<string, Group>, content: string): (r: map<string, set<string>>)
    requires forall name :: name in groups ==> NonEmptyWords(groups[name].words)
    ensures forall name :: name in r <==> name in groups && Occurs(groups[name].words, content)
    ensures forall name :: name in r ==> r[name] != {} && r[name] == Matches(groups[name].words, content)
  {
    map name | name in groups && groups[name].words != [] && Matches(groups[name].words, content) != {}
      :: Matches(groups[name].words, content)
  }

  /** A group without words is never triggered. */
  lemma EmptyGroupNeverTriggered(groups: map<string, Group>, content: string, name: string)
    requires forall n :: n in groups ==> NonEmptyWords(groups[n].words)
    requires name in groups && groups[name].words == []
    ensures name !in Triggered(groups, content)
  {
    NoWordsNoMatch(content);
  }

  /** A listing of `s`: every element exactly once, in some order. */
  predicate Lists(r: seq<string>, s: set<string>)
  {
    && NoDuplicates(r)
    && (forall x :: x in r ==> x in s)
    && (forall x :: x in s ==> x in r)
  }

  /** A listing has as many entries as the set has elements. */
  lemma {:induction false} ListsCard(r: seq<string>, s: set<string>)
    requires Lists(r, s)
    ensures |r| == |s|
    decreases |r|
  {
    if r == [] {
      assert forall x :: x !in s;
      assert s == {};
    } else {
      var n := |r| - 1;
      var y, rest := r[n], r[..n];
      forall x | x in rest
        ensures x in s - {y}
      {
        var i :| 0 <= i < n && rest[i] == x;
        assert r[i] == x && r[i] != r[n];
      }
      forall x | x in s - {y}
        ensures x in rest
      {
        var i :| 0 <= i < |r| && r[i] == x;
        assert i != n && rest[i] == x;
      }
      assert NoDuplicates(rest) by {
        forall i, j | 0 <= i < j < |rest| ensures rest[i] != rest[j] {
          assert rest[i] == r[i] && rest[j] == r[j];
        }
      }
      ListsCard(rest, s - {y});
      assert y in r;
    }
  }

  /** A listing of a single element is that element alone. */
  lemma ListsSingleton(r: seq<string>, x: string)
    requires Lists(r, {x})
    ensures r == [x]
  {
    ListsCard(r, {x});
    assert r[0] in r;
  }

  /** One way to list a set: the order `set` iteration happens to produce. */
  method ListSet(s: set<string>) returns (r: seq<string>)
    ensures Lists(r, s)
    ensures |r| == |s|
  {
    r := [];
    var rest := s;
    while rest != {}
      invariant forall x :: x in s <==> x in r || x in rest
      invariant forall x :: x in r ==> x !in rest
      invariant NoDuplicates(r)
      invariant |r| + |rest| == |s|
      decreases |rest|
    {
      var x :| x in rest;
      r := r + [x];
      rest := rest - {x};
    }
  }

  /** The targets stored under `keys`, in that order; keys the map does not hold are passed over. */
  function ValuesAt(targets: map<string, Target>, keys: seq<string>): (r: seq<Target>)
    ensures (forall k :: k in keys ==> k in targets) ==>
              |r| == |keys| && forall i :: 0 <= i < |keys| ==> r[i] == targets[keys[i]]
    decreases |keys|
  {
    if keys == [] then []
    else
      var n := |keys| - 1;
      assert forall k :: k in keys[..n] ==> k in keys;
      ValuesAt(targets, keys[..n]) + (if keys[n] in targets then [targets[keys[n]]] else [])
  }

  /**
   * `targets.values()`: the stored targets in the iteration order of the
   * keys, one per key.
   */
  method ListTargets(targets: map<string, Target>) returns (r: seq<Target>, keys: seq<string>)
    ensures Lists(keys, targets.Keys)
    ensures r == ValuesAt(targets, keys)
    ensures |r| == |targets|
    ensures forall t :: t in r <==> t in targets.Values
  {
    keys := ListSet(targets.Keys);
    r := ValuesAt(targets, keys);
    ValuesAtListing(targets, keys);
  }

  /** Over a listing of the keys, the values come one per key and cover every stored target. */
  lemma ValuesAtListing(targets: map<string, Target>, keys: seq<string>)
    requires Lists(keys, targets.Keys) && |keys| == |targets.Keys|
    ensures |ValuesAt(targets, keys)| == |targets|
    ensures forall t :: t in ValuesAt(targets, keys) <==> t in targets.Values
  {
    var r := ValuesAt(targets, keys);
    forall t | t in targets.Values
      ensures t in r
    {
      var k :| k in targets && targets[k] == t;
      var j :| 0 <= j < |keys| && keys[j] == k;
      assert r[j] == t;
    }
  }

  /**
   * The listings a run of `_check_words` used: for each visited group that
   * the message triggers, its matched strings and its stored keys, each
   * listed once in their iteration order.
   */
  predicate Listed(groups: map<string, Group>, names: seq<string>, content: string,
                   wordLists: seq<seq<string>>, keyLists: seq<seq<string>>)
    requires forall name :: name in groups ==> NonEmptyWords(groups[name].words)
    requires forall k :: 0 <= k < |names| ==> names[k] in groups
  {
    && |wordLists| == |names| && |keyLists| == |names|
    && forall k :: 0 <= k < |names| && Occurs(groups[names[k]].words, content) ==>
         && Lists(wordLists[k], Matches(groups[names[k]].words, content))
         && Lists(keyLists[k], groups[names[k]].targets.Keys)
  }

  /**
   * Everything `_check_words` queues for the groups in `names`, in turn: a
   * group the message triggers renders its message with its matches and
   * sends it to each of its stored targets; any other group sends nothing.
   */
  function Dispatch(g: Guild, groups: map<string, Group>, names: seq<string>, content: string, author: string,
                    channelName: string, wordLists: seq<seq<string>>, keyLists: seq<seq<string>>): seq<Send>
    requires forall k :: 0 <= k < |names| ==> names[k] in groups
    requires |wordLists| == |names| && |keyLists| == |names|
    decreases |names|
  {
    if names == [] then []
    else
      var n := |names| - 1;
      var group := groups[names[n]];
      Dispatch(g, groups, names[..n], content, author, channelName, wordLists[..n], keyLists[..n])
      + (if Occurs(group.words, content)
         then ExpandAll(g, ValuesAt(group.targets, keyLists[n]), Render(group.message, author, wordLists[n], g.name, channelName))
         else [])
  }

  /** A message that triggers none of the groups sends nothing. */
  lemma {:induction false} DispatchQuietIfNoneOccurs(g: Guild, groups: map<string, Group>, names: seq<string>, content: string,
                                         author: string, channelName: string,
                                         wordLists: seq<seq<string>>, keyLists: seq<seq<string>>)
    requires forall k :: 0 <= k < |names| ==> names[k] in groups
    requires |wordLists| == |names| && |keyLists| == |names|
    requires forall k :: 0 <= k < |names| ==> !Occurs(groups[names[k]].words, content)
    ensures Dispatch(g, groups, names, content, author, channelName, wordLists, keyLists) == []
    decreases |names|
  {
    if names != [] {
      var n := |names| - 1;
      DispatchQuietIfNoneOccurs(g, groups, names[..n], content, author, channelName, wordLists[..n], keyLists[..n]);
    }
  }

  /**
   * Every send goes to a human member or a channel of the server, and a
   * channel send carries the `@everyone` prefix.
   */
  lemma {:induction false} DispatchInGuild(g: Guild, groups: map<string, Group>, names: seq<string>, content: string,
                                           author: string, channelName: string,
                                           wordLists: seq<seq<string>>, keyLists: seq<seq<string>>)
    requires forall k :: 0 <= k < |names| ==> names[k] in groups
    requires |wordLists| == |names| && |keyLists| == |names|
    ensures var sends := Dispatch(g, groups, names, content, author, channelName, wordLists, keyLists);
            && (forall s :: s in sends && s.DirectMessage? ==> s.recipient in g.members && !s.recipient.bot)
            && (forall s :: s in sends && s.ChannelSend? ==>
                  s.channel in g.channels && |EveryonePrefix| <= |s.content| && s.content[..|EveryonePrefix|] == EveryonePrefix)
    decreases |names|
  {
    if names != [] {
      var n := |names| - 1;
      DispatchInGuild(g, groups, names[..n], content, author, channelName, wordLists[..n], keyLists[..n]);
    }
  }

  /**
   * The whole of `_check_words` for groups listed in `names` (the iteration
   * order of the dictionary): each group the message triggers notifies its
   * targets with its message, in turn. The listings of matches and keys it
   * iterated are returned with the sends.
   */
  method CheckGroups(g: Guild, groups: map<string, Group>, names: seq<string>, content: string,
                    author: string, channelName: string)
    returns (sends: seq<Send>, wordLists: seq<seq<string>>, keyLists: seq<seq<string>>)
    requires forall name :: name in groups ==> NonEmptyWords(groups[name].words)
    requires forall k :: 0 <= k < |names| ==> names[k] in groups
    ensures Listed(groups, names, content, wordLists, keyLists)
    ensures sends == Dispatch(g, groups, names, content, author, channelName, wordLists, keyLists)
  {
    sends, wordLists, keyLists := [], [], [];
    ghost var visited: seq<string> := [];
    for k := 0 to |names|
      invariant visited == names[..k]
      invariant |wordLists| == k && |keyLists| == k
      invariant Listed(groups, visited, content, wordLists, keyLists)
      invariant sends == Dispatch(g, groups, visited, content, author, channelName, wordLists, keyLists)
    {
      var batch, words, keys := VisitGroup(g, groups[names[k]], content, author, channelName);
      DispatchStep(g, groups, visited, names[k], content, author, channelName, wordLists, keyLists, words, keys);
      ListedStep(groups, visited, names[k], content, wordLists, keyLists, words, keys);
      sends, wordLists, keyLists := sends + batch, wordLists + [words], keyLists + [keys];
      visited := visited + [names[k]];
    }
    assert names[..|names|] == names;
  }

  /**
   * The body of the `_check_words` loop for one group: a group with words
   * builds its pattern, and when `findall` finds anything the group's
   * targets are notified with the match set.
   */
  method VisitGroup(g: Guild, group: Group, content: string, author: string, channelName: string)
    returns (batch: seq<Send>, words: seq<string>, keys: seq<string>)
    requires NonEmptyWords(group.words)
    ensures Occurs(group.words, content) ==>
              Lists(words, Matches(group.words, content)) && Lists(keys, group.targets.Keys)
    ensures batch == if Occurs(group.words, content)
                     then ExpandAll(g, ValuesAt(group.targets, keys), Render(group.message, author, words, g.name, channelName))
                     else []
  {
    batch, words, keys := [], [], [];
    if group.words == [] {
      NoWordsNoMatch(content);
      return;
    }
    var matches := Matches(group.words, content);
    if matches != {} {
      words := ListSet(matches);
      var targets;
      targets, keys := ListTargets(group.targets);
      batch := NotifyWords(g, targets, words, group.message, author, channelName);
    }
  }

  /** One more group in the visiting order adds its own sends at the end. */
  lemma DispatchStep(g: Guild, groups: map<string, Group>, names: seq<string>, name: string, content: string,
                     author: string, channelName: string, wordLists: seq<seq<string>>, keyLists: seq<seq<string>>,
                     words: seq<string>, keys: seq<string>)
    requires forall k :: 0 <= k < |names| ==> names[k] in groups
    requires name in groups
    requires |wordLists| == |names| && |keyLists| == |names|
    ensures var group := groups[name];
            Dispatch(g, groups, names + [name], content, author, channelName, wordLists + [words], keyLists + [keys])
            == Dispatch(g, groups, names, content, author, channelName, wordLists, keyLists)
               + (if Occurs(group.words, content)
                  then ExpandAll(g, ValuesAt(group.targets, keys), Render(group.message, author, words, g.name, channelName))
                  else [])
  {
    assert (names + [name])[..|names|] == names;
    assert (wordLists + [words])[..|names|] == wordLists;
    assert (keyLists + [keys])[..|names|] == keyLists;
  }

  /** One more visited group keeps the listings in step. */
  lemma ListedStep(groups: map<string, Group>, names: seq<string>, name: string, content: string,
                   wordLists: seq<seq<string>>, keyLists: seq<seq<string>>, words: seq<string>, keys: seq<string>)
    requires forall n :: n in groups ==> NonEmptyWords(groups[n].words)
    requires forall k :: 0 <= k < |names| ==> names[k] in groups
    requires name in groups
    requires Listed(groups, names, content, wordLists, keyLists)
    requires Occurs(groups[name].words, content) ==>
               Lists(words, Matches(groups[name].words, content)) && Lists(keys, groups[name].targets.Keys)
    ensures Listed(groups, names + [name], content, wordLists + [words], keyLists + [keys])
  {
    var names', wordLists', keyLists' := names + [name], wordLists + [words], keyLists + [keys];
    forall k | 0 <= k < |names'| && Occurs(groups[names'[k]].words, content)
      ensures Lists(wordLists'[k], Matches(groups[names'[k]].words, content))
      ensures Lists(keyLists'[k], groups[names'[k]].targets.Keys)
    {
      if k < |names| {
        assert names'[k] == names[k] && wordLists'[k] == wordLists[k] && keyLists'[k] == keyLists[k];
      }
    }
  }

  /** A single group the message triggers sends its rendered message to its listed targets. */
  lemma DispatchOneGroup(g: Guild, groups: map<string, Group>, name: string, content: string,
                         author: string, channelName: string, wordLists: seq<seq<string>>, keyLists: seq<seq<string>>)
    requires name in groups
    requires |wordLists| == 1 && |keyLists| == 1
    requires Occurs(groups[name].words, content)
    ensures Dispatch(g, groups, [name], content, author, channelName, wordLists, keyLists)
            == ExpandAll(g, ValuesAt(groups[name].targets, keyLists[0]),
                         Render(groups[name].message, author, wordLists[0], g.name, channelName))
  {
    assert Dispatch(g, groups, [], content, author, channelName, [], []) == [];
  }

  /**
   * End to end: a group "tech" watching "wifi" and
   * "computer" for one human member; "the wifi is down" from author A sends
   * that member exactly one DM, "Snitching on A for saying wifi".
   */
  lemma TechGroupExample(g: Guild, m: Member, key: string, group: Group, groups: map<string, Group>,
                         content: string, author: string, channelName: string,
                         wordLists: seq<seq<string>>, keyLists: seq<seq<string>>)
    requires !m.bot && GetMember(g, m.id) == Some(m) && '{' !in author
    requires group.words == ["wifi", "computer"] && group.targets == map[key := Target(m.id, MemberType)]
    requires group.message == None
    requires groups == map["tech" := group] && content == "the wifi is down"
    requires Listed(groups, ["tech"], content, wordLists, keyLists)
    ensures Dispatch(g, groups, ["tech"], content, author, channelName, wordLists, keyLists)
            == [DirectMessage(m, "Snitching on " + author + " for saying wifi")]
  {
    TechListings(key, group, groups, content, wordLists, keyLists);
    OneMemberSends(g, m, key, group.targets, wordLists[0], author, channelName);
    DispatchOneGroup(g, groups, "tech", content, author, channelName, wordLists, keyLists);
    assert groups["tech"] == group;
  }

  /** "the wifi is down" triggers the group "tech", whose only match is "wifi" and only key `key`. */
  lemma TechListings(key: string, group: Group, groups: map<string, Group>, content: string,
                     wordLists: seq<seq<string>>, keyLists: seq<seq<string>>)
    requires group.words == ["wifi", "computer"] && group.targets.Keys == {key}
    requires groups == map["tech" := group] && content == "the wifi is down"
    requires Listed(groups, ["tech"], content, wordLists, keyLists)
    ensures Occurs(group.words, content) && wordLists[0] == ["wifi"] && keyLists[0] == [key]
  {
    WifiExample(group.words, content);
    assert groups[["tech"][0]] == group;
    ListsSingleton(wordLists[0], "wifi");
    ListsSingleton(keyLists[0], key);
  }

  /** The default message for one matched word, sent to a single human member target. */
  lemma OneMemberSends(g: Guild, m: Member, key: string, targets: map<string, Target>, words: seq<string>,
                       author: string, channelName: string)
    requires !m.bot && GetMember(g, m.id) == Some(m) && '{' !in author
    requires targets == map[key := Target(m.id, MemberType)] && words == ["wifi"]
    ensures ExpandAll(g, ValuesAt(targets, [key]), Render(None, author, words, g.name, channelName))
            == [DirectMessage(m, "Snitching on " + author + " for saying wifi")]
  {
    var t := Target(m.id, MemberType);
    assert ValuesAt(targets, [key]) == [t];
    var body := Render(None, author, words, g.name, channelName);
    RenderDefaultOneWord(author, words[0], g.name, channelName);
    assert TargetSends(g, t, body) == [DirectMessage(m, body)];
    assert ExpandAll(g, [t], body) == ExpandAll(g, [], body) + TargetSends(g, t, body);
    SayingWifi(author, words[0]);
  }

  /** The default message for the word "wifi". */
  lemma SayingWifi(author: string, w: string)
    requires w == "wifi"
    ensures "Snitching on " + author + " for saying " + w == "Snitching on " + author + " for saying wifi"
  {
    assert " for saying " + w == " for saying wifi";
  }
}
