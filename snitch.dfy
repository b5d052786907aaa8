/**
 * The cog: the per-server "notifygroups" dictionary held in memory, the rate
 * limiter every send goes through, and the command handlers that edit the
 * dictionary one argument at a time. Each handler is specified by the value
 * functions of `Groups`; the confirmation lines it posts are returned as
 * `Reply` values.
 */
module Cog {
  import opened Wrappers
  import opened Guilds
  import opened Groups
  import opened Notify
  import opened Matching
  import opened RateLimiting

  /** The confirmation lines the handlers post to the command's channel. */
  datatype Reply =
    | WillBeNotified(typeName: string, target: string)
    | CouldNotIdentify(target: string)
    | GroupDoesNotExist
    | TargetRemoved(target: string)
    | CouldNotFind(target: string)
    | WillTrigger(word: string)
    | NoLongerTriggers(word: string)
    | MessageUpdated(group: string)
    | ClearedAll
    | GroupRemoved(group: string)
    | GroupNotFound(group: string)
    | RateOutOfRange
    | RateSet(value: int)

  /** `type(coerced).__name__`. */
  function TypeName(k: TargetType): (name: string)
    ensures name != []
    ensures name == "Member" <==> k == MemberType
    ensures name == "Role" <==> k == RoleType
    ensures name == "TextChannel" <==> k == ChannelType(TextChannel)
  {
    match k
    case MemberType => "Member"
    case RoleType => "Role"
    case ChannelType(TextChannel) => "TextChannel"
    case ChannelType(VoiceChannel) => "VoiceChannel"
    case ChannelType(CategoryChannel) => "CategoryChannel"
    case ChannelType(StageChannel) => "StageChannel"
    case ChannelType(ForumChannel) => "ForumChannel"
  }

  /** The line `snitch to` posts for one argument. */
  function AddReply(g: Guild, text: string): (r: Reply)
    ensures r.WillBeNotified? || r.CouldNotIdentify?
    ensures r.target == text
    ensures r.WillBeNotified? <==> IdentifyTarget(g, text).Some?
    ensures r.WillBeNotified? ==> (r.typeName == "Member" <==> IdentifyTarget(g, text).value.MemberEntity?)
    ensures r.WillBeNotified? ==> (r.typeName == "Role" <==> IdentifyTarget(g, text).value.RoleEntity?)
  {
    match IdentifyTarget(g, text)
    case Some(e) => WillBeNotified(TypeName(TargetOf(e).kind), text)
    case None => CouldNotIdentify(text)
  }

  /** The line `snitch notto` posts for one argument, given the targets left at that point. */
  function DelReply(targets: map<string, Target>, text: string): (r: Reply)
    ensures r.TargetRemoved? || r.CouldNotFind?
    ensures r.target == text
    ensures r.TargetRemoved? <==> text in targets
  {
    if text in targets then TargetRemoved(text) else CouldNotFind(text)
  }

  /** The lines `snitch notto` posts, one per argument, as the removals go on. */
  function DelReplies(start: map<string, Target>, texts: seq<string>): (r: seq<Reply>)
    ensures |r| == |texts|
    ensures forall j :: 0 <= j < |r| ==> (r[j].TargetRemoved? || r[j].CouldNotFind?) && r[j].target == texts[j]
    decreases |texts|
  {
    if texts == [] then []
    else
      var prefix := texts[..|texts| - 1];
      DelReplies(start, prefix) + [DelReply(RemoveTargets(start, prefix), texts[|texts| - 1])]
  }

  /** The line posted for an argument says what was stored under it, or that nothing resolved. */
  lemma AddReplyReportsStored(g: Guild, targets: map<string, Target>, texts: seq<string>, text: string)
    requires text in texts
    ensures var r, stored := AddReply(g, text), AddTargets(g, targets, texts);
            && (r.WillBeNotified? <==> IdentifyTarget(g, text).Some?)
            && (r.WillBeNotified? ==> text in stored && r == WillBeNotified(TypeName(stored[text].kind), text))
            && (r.CouldNotIdentify? ==> r.target == text && (text in stored <==> text in targets))
  {
    AddTargetsSpec(g, targets, texts);
  }

  /** The line posted for one more argument, in terms of the group's original targets. */
  lemma DelRepliesStep(start: map<string, Target>, prefix: seq<string>, t: string)
    ensures DelReplies(start, prefix + [t])
            == DelReplies(start, prefix) + [if t in start && t !in prefix then TargetRemoved(t) else CouldNotFind(t)]
  {
    assert (prefix + [t])[..|prefix|] == prefix;
  }

  /**
   * One line per argument: an argument is reported removed exactly when the
   * group held it and no earlier argument named it, and not found otherwise.
   */
  lemma {:induction false} DelRepliesEach(start: map<string, Target>, texts: seq<string>)
    ensures var r := DelReplies(start, texts);
            && |r| == |texts|
            && forall j :: 0 <= j < |texts| ==>
                 r[j] == if texts[j] in start && texts[j] !in texts[..j] then TargetRemoved(texts[j]) else CouldNotFind(texts[j])
    decreases |texts|
  {
    if texts != [] {
      var n := |texts| - 1;
      var prefix, t := texts[..n], texts[n];
      assert texts == prefix + [t];
      DelRepliesEach(start, prefix);
      DelRepliesStep(start, prefix, t);
      var r, before := DelReplies(start, texts), DelReplies(start, prefix);
      forall j | 0 <= j < n
        ensures r[j] == if texts[j] in start && texts[j] !in texts[..j] then TargetRemoved(texts[j]) else CouldNotFind(texts[j])
      {
        assert texts[..j] == prefix[..j];
        assert r[j] == before[j];
      }
    }
  }

  /** The body of the `snitch to` loop for one argument. */
  method ResolveOne(g: Guild, targets: map<string, Target>, text: string) returns (next: map<string, Target>)
    ensures next == AddTarget(g, targets, text)
  {
    var coerced := IdentifyTarget(g, text);
    if coerced.Some? {
      next := targets[text := TargetOf(coerced.value)];
    } else {
      next := targets;
    }
  }

  /**
   * The loop of `snitch to` over its arguments, on the group's target
   * dictionary, and the line it posts for each argument.
   */
  method StoreTargets(g: Guild, start: map<string, Target>, texts: seq<string>)
    returns (targets: map<string, Target>, replies: seq<Reply>)
    ensures targets == AddTargets(g, start, texts)
    ensures |replies| == |texts|
    ensures forall i :: 0 <= i < |texts| ==> replies[i] == AddReply(g, texts[i])
  {
    targets := start;
    for i := 0 to |texts|
      invariant targets == AddTargets(g, start, texts[..i])
    {
      assert texts[..i + 1][..i] == texts[..i];
      targets := ResolveOne(g, targets, texts[i]);
    }
    assert texts[..|texts|] == texts;
    replies := Confirm(texts, t => AddReply(g, t));
  }

  /** The loop of `snitch notto` over its arguments, on an existing group's target dictionary. */
  method DropTargets(start: map<string, Target>, texts: seq<string>)
    returns (targets: map<string, Target>, replies: seq<Reply>)
    ensures targets == RemoveTargets(start, texts)
    ensures replies == DelReplies(start, texts)
  {
    targets := start;
    replies := [];
    for i := 0 to |texts|
      invariant targets == RemoveTargets(start, texts[..i])
      invariant replies == DelReplies(start, texts[..i])
    {
      DropStep(start, texts, i);
      if texts[i] in targets {
        targets := targets - {texts[i]};
        replies := replies + [TargetRemoved(texts[i])];
      } else {
        replies := replies + [CouldNotFind(texts[i])];
      }
    }
    assert texts[..|texts|] == texts;
  }

  /** One more argument of `snitch notto`: the key is dropped if still present, and its line follows the earlier ones. */
  lemma DropStep(start: map<string, Target>, texts: seq<string>, i: nat)
    requires i < |texts|
    ensures var before := RemoveTargets(start, texts[..i]);
            && RemoveTargets(start, texts[..i + 1]) == (if texts[i] in before then before - {texts[i]} else before)
            && DelReplies(start, texts[..i + 1]) == DelReplies(start, texts[..i]) + [DelReply(before, texts[i])]
  {
    assert texts[..i + 1][..i] == texts[..i];
  }

  /** The loop of `snitch on` over its arguments, on the group's word list. */
  method AppendWords(start: seq<string>, words: seq<string>) returns (ws: seq<string>)
    ensures ws == AddWords(start, words)
  {
    ws := start;
    for i := 0 to |words|
      invariant ws == AddWords(start, words[..i])
    {
      assert words[..i + 1][..i] == words[..i];
      if words[i] !in ws {
        ws := ws + [words[i]];
      }
    }
    assert words[..|words|] == words;
  }

  /**
   * The loop of `snitch noton` over its arguments, on the group's word list:
   * it stops at the first word the list does not hold, after `done` removals.
   */
  method DropWords(start: seq<string>, words: seq<string>) returns (r: Removal, done: nat)
    ensures r == RemoveWords(start, words)
    ensures r.Removed? ==> done == |words|
    ensures r.Missing? ==> done < |words| && words[done] == r.word
  {
    var ws := start;
    for i := 0 to |words|
      invariant RemoveWords(start, words[..i]) == Removed(ws)
    {
      assert words[..i + 1] == words[..i] + [words[i]];
      RemoveWordsStep(start, words[..i], words[i], ws);
      if words[i] !in ws {
        if i + 1 < |words| {
          RemoveWordsStopsAtMissing(start, words, i + 1);
        } else {
          assert words[..i + 1] == words;
        }
        return Missing(ws, words[i]), i;
      }
      ws := RemoveFirst(ws, words[i]);
    }
    assert words[..|words|] == words;
    r, done := Removed(ws), |words|;
  }

  /** One confirmation line per word, in argument order. */
  function Confirm(words: seq<string>, line: string -> Reply): (rs: seq<Reply>)
    ensures |rs| == |words|
    ensures forall i :: 0 <= i < |words| ==> rs[i] == line(words[i])
  {
    seq(|words|, i requires 0 <= i < |words| => line(words[i]))
  }

  class Snitch {
    /** The "notifygroups" setting of one server. */
    var notifyGroups: map<string, Group>
    const rateLimiter: RateLimiter

    /** The limiter's ceiling is at least one, and every stored word is non-empty. */
    ghost predicate Valid()
      reads this, rateLimiter
    {
      && rateLimiter.Valid()
      && forall name :: name in notifyGroups ==> NonEmptyWords(notifyGroups[name].words)
    }

    /** A fresh cog: no groups, and a limiter with the default ceiling. */
    constructor ()
      ensures Valid()
      ensures notifyGroups == map[]
      ensures fresh(rateLimiter)
      ensures rateLimiter.maxRequestsPerSecond == DefaultMaxRequestsPerSecond
      ensures rateLimiter.maxConcurrent == DefaultMaxConcurrent
      ensures rateLimiter.requestTimes == []
    {
      notifyGroups := map[];
      rateLimiter := new RateLimiter();
    }

    /**
     * `snitch to`: resolve each argument and store it under its own text;
     * arguments that resolve to nothing are reported and skipped. The group
     * is written back, created if need be, in every case.
     */
    method SnitchAdd(g: Guild, name: string, texts: seq<string>) returns (replies: seq<Reply>)
      requires Valid()
      modifies this
      ensures Valid()
      ensures var group := GroupOrNew(old(notifyGroups), name);
              notifyGroups == old(notifyGroups)[name := group.(targets := AddTargets(g, group.targets, texts))]
      ensures |replies| == |texts|
      ensures forall i :: 0 <= i < |texts| ==> replies[i] == AddReply(g, texts[i])
    {
      var group := GroupOrNew(notifyGroups, name);
      var targets;
      targets, replies := StoreTargets(g, group.targets, texts);
      notifyGroups := notifyGroups[name := group.(targets := targets)];
    }

    /**
     * `snitch notto`: drop each named key that the group holds. For a group
     * that does not exist the handler reports so and then fails on the first
     * argument, changing nothing.
     */
    method SnitchDel(name: string, texts: seq<string>) returns (replies: seq<Reply>, crashed: bool)
      requires Valid()
      modifies this
      ensures Valid()
      ensures name !in old(notifyGroups) ==>
                && notifyGroups == old(notifyGroups)
                && replies == [GroupDoesNotExist]
                && (crashed <==> texts != [])
      ensures name in old(notifyGroups) ==>
                var group := old(notifyGroups)[name];
                && !crashed
                && notifyGroups == old(notifyGroups)[name := group.(targets := RemoveTargets(group.targets, texts))]
                && replies == DelReplies(group.targets, texts)
    {
      if name !in notifyGroups {
        replies := [GroupDoesNotExist];
        crashed := texts != [];
        return;
      }
      var group := notifyGroups[name];
      var targets;
      targets, replies := DropTargets(group.targets, texts);
      crashed := false;
      notifyGroups := notifyGroups[name := group.(targets := targets)];
    }

    /** `snitch on`: append each word the group does not hold yet; every word is confirmed. */
    method WordsAdd(name: string, words: seq<string>) returns (replies: seq<Reply>)
      requires Valid()
      requires NonEmptyWords(words)
      modifies this
      ensures Valid()
      ensures var group := GroupOrNew(old(notifyGroups), name);
              notifyGroups == old(notifyGroups)[name := group.(words := AddWords(group.words, words))]
      ensures |replies| == |words|
      ensures forall i :: 0 <= i < |words| ==> replies[i] == WillTrigger(words[i])
    {
      var group := GroupOrNew(notifyGroups, name);
      var ws := AppendWords(group.words, words);
      WordsFromNonEmpty(group.words + words, ws);
      replies := Confirm(words, w => WillTrigger(w));
      notifyGroups := notifyGroups[name := group.(words := ws)];
    }

    /**
     * `snitch noton`: remove each word in turn. An absent word raises; the
     * removals before it stay in an existing group, and a group that did not
     * exist is not created.
     */
    method WordsRemove(name: string, words: seq<string>) returns (replies: seq<Reply>, crashed: bool)
      requires Valid()
      modifies this
      ensures Valid()
      ensures var group := GroupOrNew(old(notifyGroups), name);
              match RemoveWords(group.words, words)
              case Removed(ws) =>
                !crashed && notifyGroups == old(notifyGroups)[name := group.(words := ws)]
              case Missing(part, w) =>
                && crashed
                && notifyGroups == (if name in old(notifyGroups) then old(notifyGroups)[name := group.(words := part)]
                                    else old(notifyGroups))
                && |replies| < |words| && words[|replies|] == w
      ensures !crashed ==> |replies| == |words|
      ensures forall i :: 0 <= i < |replies| ==> replies[i] == NoLongerTriggers(words[i])
    {
      var group := GroupOrNew(notifyGroups, name);
      var r, done := DropWords(group.words, words);
      RemoveWordsCounts(group.words, words);
      assert forall w :: w in r.words ==> w in multiset(r.words);
      WordsFromNonEmpty(group.words, r.words);
      replies := Confirm(words[..done], w => NoLongerTriggers(w));
      crashed := r.Missing?;
      if r.Removed? || name in notifyGroups {
        notifyGroups := notifyGroups[name := group.(words := r.words)];
      }
    }

    /** `snitch with`: set the group's message, creating the group if need be. */
    method MessageChange(name: string, message: string) returns (reply: Reply)
      requires Valid()
      modifies this
      ensures Valid()
      ensures notifyGroups == old(notifyGroups)[name := GroupOrNew(old(notifyGroups), name).(message := Some(message))]
      ensures reply == MessageUpdated(name)
    {
      var group := GroupOrNew(notifyGroups, name);
      notifyGroups := notifyGroups[name := group.(message := Some(message))];
      reply := MessageUpdated(name);
    }

    /** `snitch clear`: with no name (or an empty one) drop every group, otherwise only the named one. */
    method ClearList(name: Option<string>) returns (reply: Reply)
      requires Valid()
      modifies this
      ensures Valid()
      ensures name.None? || name.value == [] ==> notifyGroups == map[] && reply == ClearedAll
      ensures name.Some? && name.value != [] ==>
                && notifyGroups == old(notifyGroups) - {name.value}
                && reply == (if name.value in old(notifyGroups) then GroupRemoved(name.value) else GroupNotFound(name.value))
    {
      if name.None? || name.value == [] {
        notifyGroups := map[];
        return ClearedAll;
      }
      if name.value in notifyGroups {
        notifyGroups := notifyGroups - {name.value};
        reply := GroupRemoved(name.value);
      } else {
        reply := GroupNotFound(name.value);
      }
    }

    /** `snitch setrate`: a ceiling outside [1, 50] is refused and nothing changes. */
    method SetRateLimit(value: int) returns (reply: Reply)
      requires Valid()
      modifies rateLimiter
      ensures Valid()
      ensures MinRate <= value <= MaxRate ==> rateLimiter.maxRequestsPerSecond == value && reply == RateSet(value)
      ensures !(MinRate <= value <= MaxRate) ==>
                rateLimiter.maxRequestsPerSecond == old(rateLimiter.maxRequestsPerSecond) && reply == RateOutOfRange
      ensures rateLimiter.requestTimes == old(rateLimiter.requestTimes)
    {
      var accepted := rateLimiter.SetRateLimit(value);
      reply := if accepted then RateSet(value) else RateOutOfRange;
    }

    /**
     * `_check_words` on a message in server `g`: the groups are visited in
     * the dictionary's iteration order (`names`) and each group the message
     * triggers notifies its targets; the listings of matches and keys it
     * iterated are returned with the sends.
     */
    method CheckWords(g: Guild, content: string, author: string, channelName: string)
      returns (sends: seq<Send>, names: seq<string>, wordLists: seq<seq<string>>, keyLists: seq<seq<string>>)
      requires Valid()
      ensures Lists(names, notifyGroups.Keys)
      ensures Listed(notifyGroups, names, content, wordLists, keyLists)
      ensures sends == Dispatch(g, notifyGroups, names, content, author, channelName, wordLists, keyLists)
      ensures (forall name :: name in notifyGroups ==> !Occurs(notifyGroups[name].words, content)) ==> sends == []
      ensures forall s :: s in sends && s.DirectMessage? ==> s.recipient in g.members && !s.recipient.bot
      ensures forall s :: s in sends && s.ChannelSend? ==>
                s.channel in g.channels && |EveryonePrefix| <= |s.content| && s.content[..|EveryonePrefix|] == EveryonePrefix
    {
      names := ListSet(notifyGroups.Keys);
      sends, wordLists, keyLists := CheckGroups(g, notifyGroups, names, content, author, channelName);
      if forall name :: name in notifyGroups ==> !Occurs(notifyGroups[name].words, content) {
        DispatchQuietIfNoneOccurs(g, notifyGroups, names, content, author, channelName, wordLists, keyLists);
      }
      DispatchInGuild(g, notifyGroups, names, content, author, channelName, wordLists, keyLists);
    }

    /**
     * The queued sends go through the limiter one at a time (its lock
     * serialises them): send `i` reads the clock `gaps[i]` after the previous
     * one proceeded, and the throughput bound is kept.
     */
    method Deliver(sends: seq<Send>, start: int, gaps: seq<nat>, overshoots: seq<nat>) returns (proceeded: seq<int>)
      requires Valid()
      requires |gaps| == |sends| && |overshoots| == |sends|
      modifies rateLimiter
      ensures Valid() && rateLimiter.maxRequestsPerSecond == old(rateLimiter.maxRequestsPerSecond)
      ensures |proceeded| == |sends|
      ensures Run(proceeded, rateLimiter.requestTimes)
              == ThrottleAll(old(rateLimiter.requestTimes), rateLimiter.maxRequestsPerSecond, start, gaps, overshoots)
      ensures old(rateLimiter.Bounded(start)) ==> rateLimiter.Bounded(LastTime(proceeded, start))
    {
      proceeded := rateLimiter.WaitInTurn(start, gaps, overshoots);
    }
  }

  /** Words drawn from a list of non-empty words are non-empty. */
  lemma WordsFromNonEmpty(source: seq<string>, ws: seq<string>)
    requires NonEmptyWords(source)
    requires forall w :: w in ws ==> w in source
    ensures NonEmptyWords(ws)
  {
    forall k | 0 <= k < |ws|
      ensures |ws[k]| > 0
    {
      assert ws[k] in ws;
    }
  }
}
