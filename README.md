# Snitch: a verified model

The Snitch cog for Red-DiscordBot lets a server's administrators set up
notification groups. A group pairs trigger words with targets: members,
roles and channels. When a message contains one of the words as a whole
word (ignoring case), every target of that group is notified. The
notification is a direct message to each human member of a target member or
role, or an `@everyone` post in a target text channel. Each send task passes
once through a sliding-window rate limiter before its first attempt. A retry
after a Discord rate-limit error is not throttled again.

This project models the cog's logic in Dafny and proves properties about it:

| file | module | what it holds |
|---|---|---|
| `wrappers.dfy` | `Wrappers` | `Option` |
| `text.dfy` | `Text` | ASCII forms of `str.lower`, `str.strip(chars)`, `str.isnumeric`, `int(...)`, `str.join` and `str.replace` |
| `rate_limiter.dfy` | `RateLimiting` | `RateLimiter` as a class over a list of integer timestamps (milliseconds, window 1000), the throttle step as a function, and the retry loop of `execute` |
| `matcher.dfy` | `Matching` | the whole-word alternation of a group's words under `re.I`, and its `findall` scan |
| `template.dfy` | `Templating` | the default message and the chained `replace` calls of `_notify_words` |
| `guild.dfy` | `Guilds` | an abstract server (members, roles and channels in list order) and `_identify_target` |
| `groups.dfy` | `Groups` | a notification group and the edits the commands make to it, written as functions on values |
| `notify.dfy` | `Notify` | expansion of stored targets into sends, and `_check_words` |
| `snitch.dfy` | `Cog` | class `Snitch`: the in-memory `notifygroups` map, the rate limiter, and the command handlers that update both in place |

The command handlers are methods of `Cog.Snitch`. Each one updates the map in
place, and its `ensures` clause states the new map in terms of the value
functions of `Groups`. The per-argument loops of the handlers are separate
methods (`Cog.StoreTargets`, `Cog.DropTargets`, `Cog.AppendWords`,
`Cog.DropWords`), each proved against one of those functions. The
confirmation lines a handler posts are returned as `Cog.Reply` values. A
handler that would raise in the original returns `crashed`. The persistence
layer is left out: anything a handler leaves in the map is what is stored.

Some behaviours of the code are easy to miss. The model keeps them as they are:

- The four `replace` calls are chained. Each call scans the output of the one
  before, so a substituted value that contains a later token is itself
  replaced (`Templating.RenderRescansSubstitutedValues`).
- `execute` sleeps for exactly the `retry_after` the error reports. There is
  no minimum delay.
- Only the throttle step is serialised. Each send task holds the lock of
  `_wait_for_rate_limit` across its sleep and releases it before the API call.
  So the deliveries themselves may overlap, and a retried send can go out
  after sends that were queued behind it. `Cog.Snitch.Deliver` lets the tasks
  take the lock in the order they were queued.
- In `_words_remove`, the removals made before an absent word stay in an
  existing group. The code mutates that group in place before raising.
- `_snitch_del` on a missing group posts "Group doesn't exist." It then fails
  as soon as there is an argument to look at.

## Model

| member | source | states |
|---|---|---|
| `RateLimiting.Prune` | snitch/snitch.py:43 | The pruned list is no longer than the input. A timestamp survives exactly when it is in the input and less than one second old. |
| `RateLimiting.PruneCounts` | snitch/snitch.py:43 | Every recent timestamp is kept as many times as it was recorded, and every older one is dropped. |
| `RateLimiting.PruneAppend` | snitch/snitch.py:43 | Pruning filters element by element in order: pruning `a + b` gives the pruned `a` followed by the pruned `b`. |
| `RateLimiting.PruneSortedIsSuffix` | snitch/snitch.py:43 | On timestamps in order, pruning keeps a suffix: the surviving entries in their original order. |
| `RateLimiting.StaleCount` | snitch/snitch.py:43 | Counts the leading stale entries: those before it are outside the window, and the next one is inside. |
| `RateLimiting.AllRecentKept` | snitch/snitch.py:43 | On sorted timestamps whose oldest entry is recent, pruning removes nothing. |
| `RateLimiting.SuffixKeepsBound` | snitch/snitch.py:43 | Dropping a prefix of a window-bounded list keeps it window-bounded. |
| `RateLimiting.RecentBounded` | snitch/snitch.py:43-46 | Under the window bound and a clock that has not gone backwards, at most `max` timestamps fall within one second of now. |
| `RateLimiting.AppendKeepsBound` | snitch/snitch.py:54 | Appending the send time keeps the bound: when the list was full, the new time is a full window after its oldest entry. |
| `RateLimiting.Throttle` | snitch/snitch.py:38-54 | A full window gives a positive sleep of exactly one window minus the age of the oldest kept entry, and the send proceeds at that entry's time plus one window plus the overshoot. Otherwise the send proceeds at once, without sleeping. Never before `now`. The new list is the pruned list plus exactly one entry, the time the send proceeds. |
| `RateLimiting.ThrottleKeepsWindowBound` | snitch/snitch.py:38-54 | With a fixed ceiling of at least one, every call keeps the window bound. No recorded time lies after the time of the send. |
| `RateLimiting.ThrottleSleepsUntilOldestLeaves` | snitch/snitch.py:46-51 | A full window is waited out exactly until its oldest kept entry leaves it. The entry is still inside the window at every clock reading from `now` up to the wake-up, and outside it at the wake-up. |
| `RateLimiting.ThrottleRecentBounded` | snitch/snitch.py:38-54 | After every call, at most `max_requests_per_second` sends lie within one second of the newest one. |
| `RateLimiting.ThrottleAll` | snitch/snitch.py:38-54 | Sends that the lock lets through one at a time, each reading the clock a gap after the previous one proceeded: one throttle step per send, and one send time per send. |
| `RateLimiting.ThrottleAllStep` | snitch/snitch.py:38-54 | One more send of a run takes one throttle step from the last send time plus its gap. |
| `RateLimiting.RunStepBounded` | snitch/snitch.py:38-54 | One throttle step keeps the run invariant: the window bound, nothing recorded after the last send, and send times in order and not before the start. |
| `RateLimiting.ThrottleAllBounded` | snitch/snitch.py:38-54 | A serialised run of any length keeps the window bound. Its sends proceed in time order, none before the start, and after the last one at most `max_requests_per_second` sends lie within one second. |
| `RateLimiting.PruneCons` | snitch/snitch.py:43 | Pruning looks at the first timestamp and then at the rest. |
| `RateLimiting.RunAttempts` | snitch/snitch.py:25-36 | Makes one to three attempts, and every attempt but the last was rate limited, each backoff equal to its `retry_after`. Success returns that attempt's result. Any other error propagates after that attempt. A rate limit re-raises only on the third attempt. |
| `RateLimiting.RateLimiter.constructor` | snitch/snitch.py:14-19 | Creates a limiter with the given (by default 35 and 20) ceilings and no recorded sends. |
| `RateLimiting.RateLimiter.WaitForRateLimit` | snitch/snitch.py:38-54 | The new timestamp list, the sleep and the send time are exactly those of `Throttle`. The ceiling is unchanged, and the window bound is preserved. |
| `RateLimiting.RateLimiter.WaitInTurn` | snitch/snitch.py:38-54 | Calls for a run of sends, one after the other, leave exactly the send times and list of `ThrottleAll`, with the ceiling unchanged. When the window bound held before, it holds after the last send. |
| `RateLimiting.RateLimiter.Execute` | snitch/snitch.py:21-36 | Throttles exactly once, then gives the outcome of `RunAttempts` on the attempt outcomes. |
| `RateLimiting.RateLimiter.GetStats` | snitch/snitch.py:56-64 | The recent count is the length of the list pruned at `now`: at most the list length, and positive when a recent send exists. Both ceilings are echoed back. The available count is the ceiling minus recent requests, floored at zero. |
| `RateLimiting.RateLimiter.StatsWithinCeiling` | snitch/snitch.py:56-64 | While the window bound holds, the statistics never report more recent sends than the ceiling, so the available count is exactly the ceiling minus the recent count. |
| `RateLimiting.RateLimiter.SetRateLimit` | snitch/snitch.py:370-374 | Accepts exactly the values 1 to 50, which replace the ceiling. Any other value leaves the ceiling as it was. The timestamps are untouched. |
| `Text.ToLower` | snitch/snitch.py:117 | Same length as the input, and each character is lower-cased on its own (ASCII). |
| `Text.Strip` | snitch/snitch.py:105 | The result is the slice between the leading and the trailing run of strip characters. It is empty exactly when every character is a strip character, and otherwise starts and ends with a kept character. |
| `Text.LowerChar` | snitch/snitch.py:117 | An ASCII capital maps to its small letter, and every other character is kept. |
| `Text.StripStart` | snitch/snitch.py:105 | Marks where the leading run of strip characters ends. |
| `Text.StripEnd` | snitch/snitch.py:105 | Marks where the trailing run of strip characters starts. |
| `Text.StripStartAfter` | snitch/snitch.py:105 | A leading run of strip characters followed by a kept character ends exactly at that character. |
| `Text.StripEndBefore` | snitch/snitch.py:105 | A trailing run of strip characters after a kept character starts exactly after it. |
| `Text.StripWrapped` | snitch/snitch.py:105 | A text that starts and ends with kept characters, wrapped in strip characters on both sides, strips back to itself. |
| `Text.ShowNat` | snitch/snitch.py:106-107 | The decimal digits of a number are numeric and parse back to the number. |
| `Text.ParseNat` | snitch/snitch.py:107 | The value of k decimal digits is below 10 to the k. |
| `Text.ParseNatLeadingZero` | snitch/snitch.py:107 | `int(...)` ignores a leading zero. |
| `Text.Join` | snitch/snitch.py:422 | Joining no words gives the empty string, and joining one word gives that word. |
| `Text.JoinAppend` | snitch/snitch.py:422 | Joining two non-empty lists puts one separator between their joins. |
| `Text.Replace` | snitch/snitch.py:424-429 | A replacement as long as the pattern keeps the length, and replacing a pattern by itself changes nothing. |
| `Text.ReplaceAbsent` | snitch/snitch.py:424-429 | A `replace` whose pattern does not occur returns its input unchanged. |
| `Text.ReplaceAfterPrefix` | snitch/snitch.py:424-429 | A prefix holding no occurrence of the pattern is copied unchanged in front of the rest. |
| `Matching.FirstWordFrom` | snitch/snitch.py:506-508 | Picks the first alternative, in list order, that matches at the position. No alternative before it matches there. None means no alternative matches there. |
| `Matching.Scan` | snitch/snitch.py:514 | Every hit is a whole-word match of the first alternative that matches at its start. Hits come in order without overlapping. |
| `Matching.ScanAtHit` | snitch/snitch.py:514 | Where an alternative matches, the scan records that hit and resumes right after it. |
| `Matching.ScanGapsClear` | snitch/snitch.py:514 | The scan skips no match: no alternative matches in any gap before, between or after its hits. |
| `Matching.GapsClearEach` | snitch/snitch.py:514 | The gaps of a scan, stated gap by gap: before the first hit, between consecutive hits, after the last. |
| `Matching.ScanComplete` | snitch/snitch.py:514 | No match is skipped: nothing matches before the first hit, between two consecutive hits, or after the last one. |
| `Matching.ScanFindsOccurrence` | snitch/snitch.py:512-514 | The scan of the whole message finds something exactly when some configured word occurs as a whole word. |
| `Matching.FindAll` | snitch/snitch.py:514 | One string per hit of the scan, in scan order: string j is the message's own text at hit j, a whole-word occurrence of a configured word. |
| `Matching.Matches` | snitch/snitch.py:514-515 | The match set is exactly the set of the texts at the scan's hits. It is non-empty exactly when some configured word occurs in the message as a whole word. |
| `Matching.MatchesAreOccurrences` | snitch/snitch.py:506-514 | Every reported string is the message's own text at a whole-word occurrence of a configured word. |
| `Matching.MatchesAreWords` | snitch/snitch.py:506-514 | Every reported string equals a configured word, ignoring ASCII case, and has a word boundary on both sides. |
| `Matching.NoWordsNoMatch` | snitch/snitch.py:505-510 | An empty word list matches nothing. |
| `Matching.MatchStartsWithFirstLetter` | snitch/snitch.py:506-508 | A whole-word match starts with the word's first letter, up to case. |
| `Matching.MatchesSingle` | snitch/snitch.py:514 | A message with exactly one whole-word occurrence yields exactly the text at that occurrence. |
| `Matching.WifiOnlyAt` | snitch/snitch.py:506-514 | In "the wifi is down", with the words wifi and computer, the only whole-word occurrence is wifi at position 4. |
| `Matching.WifiExample` | snitch/snitch.py:506-514 | For the words wifi and computer, "the wifi is down" triggers, and the match set is exactly {"wifi"}. |
| `Templating.BaseMessage` | snitch/snitch.py:423 | A non-empty group message is used as it is. A missing or empty one falls back to the default template. |
| `Templating.RenderWithoutTokens` | snitch/snitch.py:422-429 | A group message holding none of the four tokens is sent exactly as written. |
| `Templating.RenderDefault` | snitch/snitch.py:422-429 | With no message, the body is "Snitching on " + author + " for saying " + the words joined with " and ". This requires values without `{`. |
| `Templating.RenderDefaultOneWord` | snitch/snitch.py:422-429 | With no message, an author a and a single word w (neither holding `{`) give "Snitching on " + a + " for saying " + w. For author A and word wifi that is "Snitching on A for saying wifi". |
| `Templating.RenderRescansSubstitutedValues` | snitch/snitch.py:424-429 | The chained calls rescan earlier substitutions: a `{{author}}` message whose author is named `{{channel}}` renders as the channel's name. |
| `Templating.ReplaceSkips` | snitch/snitch.py:424-429 | Text free of the pattern's first character is copied unchanged in front of the rest of the result. |
| `Templating.ReplaceNoFirstChar` | snitch/snitch.py:424-429 | Text free of the pattern's first character is returned unchanged. |
| `Templating.DefaultAuthorStep` | snitch/snitch.py:423-425 | The first replacement puts the author into the default template and leaves the words token in place. |
| `Templating.DefaultWordsStep` | snitch/snitch.py:426 | The second replacement puts the joined words in place of the words token, after a `{`-free author. |
| `Guilds.TargetOf` | snitch/snitch.py:165-169 | The stored record carries the entity's id, and its type names the entity's kind (member, role or the channel's own class). |
| `Guilds.FindFirst` | snitch/snitch.py:116-120 | Returns the index of the first element that satisfies the condition, or None when no element does. |
| `Guilds.GetMember` | snitch/snitch.py:107 | Gives a member of the guild with that id, or None exactly when no member has it. |
| `Guilds.GetRole` | snitch/snitch.py:109 | Gives a role of the guild with that id, or None exactly when no role has it. |
| `Guilds.GetChannel` | snitch/snitch.py:111 | Gives a channel of any kind with that id, or None exactly when no channel has it. |
| `Guilds.RoleMembers` | snitch/snitch.py:469 | A role's members are exactly the guild members that hold it. For the default role (id equal to the guild's), that is every member. |
| `Guilds.Holders` | snitch/snitch.py:469 | Keeps, in order, exactly the members that hold the role, and never more than there were. |
| `Guilds.HoldersAppend` | snitch/snitch.py:469 | Filtering by role distributes over concatenation, so the holders keep their order and multiplicity. |
| `Guilds.LookupId` | snitch/snitch.py:106-112 | A result is a member, role or channel of the guild with that id. There is none exactly when no member, role or channel has the id. |
| `Guilds.LookupName` | snitch/snitch.py:114-139 | A result is a member, role or text channel of the guild that answers to the name, ignoring case. |
| `Guilds.LookupNameFirstMatch` | snitch/snitch.py:114-139 | Name lookup returns the first role with the name, else the first member whose name or display name it is, else the first text channel with the name. It returns none exactly when none of these exists. |
| `Guilds.IdentifyTargetPriority` | snitch/snitch.py:105-139 | After stripping `!<#>@&`, a numeric argument resolves only by id: member, then role, then channel, never by name. Any other argument resolves by name with the priority above, ignoring case. |
| `Guilds.IdentifyTarget` | snitch/snitch.py:88-139 | A result belongs to the guild. For a numeric argument it has the argument's id, and otherwise it answers to the argument as a name. |
| `Guilds.MentionIsIdText` | snitch/snitch.py:105-107 | A mention such as `<@!123>` or `<#123>` counts as numeric and is read as the id it wraps. |
| `Groups.GroupOrNew` | snitch/snitch.py:158-160 | Gives the stored group, or the empty group when the name is unknown. |
| `Groups.AddWords` | snitch/snitch.py:220-222 | The existing list is kept as a prefix. A word ends up in the list exactly when it was there or is an argument. |
| `Groups.AddWordsNoDuplicates` | snitch/snitch.py:220-222 | A list without duplicates stays without duplicates. |
| `Groups.AddPresentWords` | snitch/snitch.py:220-222 | Adding words that are all present already leaves the list unchanged. |
| `Groups.AddWordsIdempotent` | snitch/snitch.py:220-222 | Adding the same words a second time leaves the list unchanged. |
| `Groups.FirstIndex` | snitch/snitch.py:246 | Gives the position of the first occurrence. |
| `Groups.RemoveFirst` | snitch/snitch.py:246 | `list.remove` drops the first occurrence and keeps the rest in order: the list before it followed by the list after it. |
| `Groups.RemoveFirstCounts` | snitch/snitch.py:246 | Exactly one copy of the word goes. |
| `Groups.RemoveWords` | snitch/snitch.py:245-246 | When every removal succeeds, the list is shorter by the number of arguments. A failure names an argument that is absent from the list at that point. |
| `Groups.RemoveWordsCounts` | snitch/snitch.py:245-246 | A successful run removes one copy per argument. A failed run has lost only words of the list. |
| `Groups.RemoveWordsStopsAtMissing` | snitch/snitch.py:245-246 | Once a removal has raised, later arguments are never looked at. |
| `Groups.RemoveAbsentWordFails` | snitch/snitch.py:245-246 | Removing a word the list does not hold raises, whatever else is removed with it. |
| `Groups.AddAbsentWord` | snitch/snitch.py:221-222 | A word the list lacks is appended at the end. |
| `Groups.AddWordsAppend` | snitch/snitch.py:220-222 | Adding `a` and then `b` is adding `a + b`: the arguments are taken one after another. |
| `Groups.AddAbsentWords` | snitch/snitch.py:220-222 | Distinct arguments that the list lacks are appended in argument order. |
| `Groups.RemoveAppended` | snitch/snitch.py:246 | Removing a word just appended to a list without it gives back the list. |
| `Groups.RemoveAfterAdd` | snitch/snitch.py:220-222 | Removing a word right after adding it, when the list lacked it, restores the list. |
| `Groups.AddTarget` | snitch/snitch.py:162-169 | A resolved argument is stored under its own text as the record of what it resolved to. An unresolved one changes nothing, and no other key changes. |
| `Groups.AddTargets` | snitch/snitch.py:161-169 | Every stored key stays, and every new key is one of the arguments. |
| `Groups.AddTargetsSpec` | snitch/snitch.py:161-169 | Each argument that resolves is stored under its own text as the record of what it resolved to. Unresolved arguments are not stored, and every other key keeps its target. |
| `Groups.RemoveTargets` | snitch/snitch.py:194-196 | A key remains exactly when it was present and not named, and every remaining key keeps its target. |
| `Notify.SendToMember` | snitch/snitch.py:395-399 | A bot is sent nothing. A human gets exactly one DM with the body. |
| `Notify.DirectMessages` | snitch/snitch.py:469-472 | Every send is a DM with the body to a human in the list, and every human in the list gets one. |
| `Notify.DirectMessagesOnePerHuman` | snitch/snitch.py:469-472 | Exactly one DM per human member, in list order. |
| `Notify.TargetSends` | snitch/snitch.py:442-472 | A text channel gives at most one `@everyone ` send, present exactly when the channel exists. A member gives at most one DM, present exactly when the member exists and is not a bot. A role gives one DM per human member of it. A missing entity or another channel kind gives nothing. |
| `Notify.ExpandAll` | snitch/snitch.py:442-472 | Every DM goes to a human member of the guild with the body. Every channel send goes to a channel of the guild, with the body prefixed by `@everyone `. |
| `Notify.ExpandTargetInGuild` | snitch/snitch.py:442-472 | Every send of one target goes to a human member or a channel of the guild. |
| `Notify.UnresolvedTargetSendsNothing` | snitch/snitch.py:448-468 | A target whose id no longer names anything sends nothing. |
| `Notify.QueueTarget` | snitch/snitch.py:444-472 | The tasks queued for one target, built by the role loop, are exactly its sends. |
| `Notify.NotifyWords` | snitch/snitch.py:422-472 | Renders the body once. The queued tasks are then exactly the expansion of the targets, in order, with that body. |
| `Notify.Triggered` | snitch/snitch.py:502-515 | A group is triggered exactly when one of its words occurs in the message as a whole word, and it reports the non-empty set of matched strings. |
| `Notify.EmptyGroupNeverTriggered` | snitch/snitch.py:503-510 | A group without words is never triggered. |
| `Notify.ListSet` | snitch/snitch.py:514-517 | Lists each element of the set exactly once, so the listing is as long as the set. |
| `Notify.ListTargets` | snitch/snitch.py:519 | Lists the keys once each, and the values at those keys: one target per stored key, covering exactly the stored targets. |
| `Notify.ListsCard` | snitch/snitch.py:514-517 | A listing of a set is as long as the set. |
| `Notify.ListsSingleton` | snitch/snitch.py:514-517 | The only listing of a one-element set is that element alone. |
| `Notify.ValuesAt` | snitch/snitch.py:519 | Over keys the map holds, one value per key, in key order. |
| `Notify.ValuesAtListing` | snitch/snitch.py:519 | Over a listing of the keys, the values come one per key and cover every stored target. |
| `Notify.DirectMessagesStep` | snitch/snitch.py:469-472 | One more role member adds its own DM, if any, after the earlier ones. |
| `Notify.ExpandAllStep` | snitch/snitch.py:442-472 | One more stored target adds its own sends after those of the earlier targets. |
| `Notify.DispatchQuietIfNoneOccurs` | snitch/snitch.py:501-522 | A message that triggers none of the groups sends nothing. |
| `Notify.DispatchInGuild` | snitch/snitch.py:501-522 | Every send goes to a human member or a channel of the server, and a channel send carries the `@everyone ` prefix. |
| `Notify.DispatchStep` | snitch/snitch.py:502-522 | One more visited group adds its own sends at the end. |
| `Notify.DispatchOneGroup` | snitch/snitch.py:502-522 | A single group that the message triggers sends its rendered message to its listed targets. |
| `Notify.ListedStep` | snitch/snitch.py:502-519 | One more visited group keeps the listings of matches and keys in step with the groups. |
| `Notify.VisitGroup` | snitch/snitch.py:503-522 | One group of the loop: a triggered group notifies its targets, each listed once, with its message rendered from its match set, each listed once. An untriggered group sends nothing. |
| `Notify.CheckGroups` | snitch/snitch.py:501-522 | Visits the groups in the given order and sends exactly what `Dispatch` gives for the listings of matches and keys it used: each triggered group's rendered message to each of its targets, in turn. |
| `Notify.TechListings` | snitch/snitch.py:503-514 | For the message "the wifi is down" and a group tech with the words wifi and computer, the group is triggered, its only match is wifi, and its only key is the stored one. |
| `Notify.OneMemberSends` | snitch/snitch.py:422-465 | The default message for wifi, sent to one human member target, is one DM "Snitching on A for saying wifi". |
| `Notify.TechGroupExample` | snitch/snitch.py:493-522 | End to end: a group tech with the words wifi and computer and one human member target, on "the wifi is down" from author A, sends exactly one DM to that member, "Snitching on A for saying wifi". |
| `Cog.TypeName` | snitch/snitch.py:165 | The class name of a target type is never empty, and Member, Role and TextChannel each name exactly one kind. |
| `Cog.AddReply` | snitch/snitch.py:164-172 | Names the argument. It confirms exactly when the argument resolves, calling it a Member exactly for a member and a Role exactly for a role; otherwise it says "Could not identify". |
| `Cog.DelReply` | snitch/snitch.py:195-199 | Names the argument, and says removed exactly when the group holds it and "not found" otherwise. |
| `Cog.DelReplies` | snitch/snitch.py:194-199 | One line per argument, in order, each naming its argument and saying removed or not found. |
| `Cog.AddReplyReportsStored` | snitch/snitch.py:164-172 | An argument is confirmed exactly when it resolves, naming the type of what was stored under it. Otherwise it gets "Could not identify" and its key is unchanged. |
| `Cog.DelRepliesStep` | snitch/snitch.py:194-199 | One more argument appends one line: removed if the group held it and no earlier argument named it, not found otherwise. |
| `Cog.DelRepliesEach` | snitch/snitch.py:194-199 | One line per argument. An argument is reported removed exactly when the group held it and no earlier argument named it, and "not found" otherwise. |
| `Cog.ResolveOne` | snitch/snitch.py:162-172 | The loop body of `snitch to` stores the argument exactly as `AddTarget` says. |
| `Cog.StoreTargets` | snitch/snitch.py:161-172 | The loop of `snitch to` leaves the targets of `AddTargets`, and one line per argument. |
| `Cog.DropTargets` | snitch/snitch.py:194-199 | The loop of `snitch notto` leaves the targets of `RemoveTargets` and posts the lines of `DelReplies`. |
| `Cog.DropStep` | snitch/snitch.py:194-199 | One more argument of `snitch notto` drops its key if still present, and its line follows the earlier ones. |
| `Cog.AppendWords` | snitch/snitch.py:220-222 | The loop of `snitch on` leaves the list of `AddWords`. |
| `Cog.DropWords` | snitch/snitch.py:245-246 | The loop of `snitch noton` ends as `RemoveWords` says. All arguments are consumed when every removal succeeds, and the loop stops at the absent word otherwise. |
| `Cog.Confirm` | snitch/snitch.py:223 | One line per word, in argument order. |
| `Cog.Snitch.constructor` | snitch/snitch.py:73-79 | Creates a cog with no groups and a fresh limiter at the default ceilings. |
| `Cog.Snitch.SnitchAdd` | snitch/snitch.py:156-173 | The group, created if need be, is written back with the targets of `AddTargets`. Nothing else changes, and one line is posted per argument. |
| `Cog.Snitch.SnitchDel` | snitch/snitch.py:189-199 | For an existing group, only the named keys are dropped, with the lines of `DelReplies`. For a missing group, it reports so, changes nothing, and fails exactly when there is an argument. |
| `Cog.Snitch.WordsAdd` | snitch/snitch.py:215-224 | The group, created if need be, gets the word list of `AddWords`, and every word is confirmed. |
| `Cog.Snitch.WordsRemove` | snitch/snitch.py:240-248 | Success stores the reduced list. An absent word raises after confirming the earlier ones, and keeps their removals only in a group that existed. |
| `Cog.Snitch.MessageChange` | snitch/snitch.py:270-277 | The group, created if need be, gets the message, and nothing else changes. |
| `Cog.Snitch.ClearList` | snitch/snitch.py:292-303 | No name or an empty name empties the map. A name removes only that group, and the reply says whether it was there. |
| `Cog.Snitch.SetRateLimit` | snitch/snitch.py:364-375 | Values 1 to 50 become the ceiling, and other values are refused with nothing changed. |
| `Cog.Snitch.CheckWords` | snitch/snitch.py:493-522 | Visits every group once and sends exactly what `Dispatch` gives for that order and the listings used. A message that matches no group sends nothing. DMs go only to human guild members, and channel sends only to guild channels, prefixed with `@everyone `. |
| `Cog.Snitch.Deliver` | snitch/snitch.py:479-481 | The queued sends pass through the limiter one at a time, with the send times and list of `ThrottleAll`, one send time per send. The ceiling is unchanged and the window bound is kept. |
| `Cog.WordsFromNonEmpty` | snitch/snitch.py:220-246 | Words drawn from a list of non-empty words are non-empty, so the edits keep every stored word non-empty. |

## Left out

- Discord and Red are not modelled. This covers sending, embeds, `pagify`, `Config` persistence (the map is held in memory), and the `on_message` checks (cog disabled, command prefix, automod immunity). A `Send` records only its recipient or channel and its text.
- The `_global_list` and `_rate_status` commands only format text and are not modelled. `GetStats` models the numbers `_rate_status` displays.
- Logging is not modelled, and neither is the success/failure summary after `asyncio.gather`. Both are diagnostics only.
- Concurrency is modelled only through the lock of `_wait_for_rate_limit`. The gathered send tasks take the lock one at a time, in the order they were queued (`Cog.Snitch.Deliver`), and each holds it across its sleep. The API calls that follow, which run outside the lock and may overlap, are not ordered by the model. The semaphore bound of `max_concurrent` and the order in which the event loop actually schedules the tasks are not modelled.
- RateLimiting.RateLimiter.Execute: the second and third attempts of the wrapped call are neither throttled nor recorded by the limiter, as in the original. So `ThrottleAllBounded` bounds the throttled send tasks, not the API calls, which retries can exceed.
- Cog.Snitch.Deliver: models only the throttle step of each send. The retry loop of `execute` that follows it is `RateLimiting.RunAttempts`, and its backoff sleeps, which do not touch the limiter, are not threaded through a run. A failed send does not stop the others, as with `return_exceptions=True`.
- Time is an integer clock in milliseconds, passed in as `now`. After a sleep, the send proceeds at the wake-up time plus a non-negative `overshoot` (late scheduling). Floating point time is not modelled.
- RateLimiting.RunAttempts: requires at least three attempt outcomes. The caller supplies what each attempt of the wrapped call would do, so a fixed-length sequence covers every possible run.
- RateLimiting.RateLimiter.constructor: requires a ceiling of at least one. The original accepts any integer, but every ceiling it later accepts is between 1 and 50.
- Only ASCII regular expressions are modelled. `\w`, case folding and `isnumeric` cover ASCII only. The words are literal text, as `re.escape` makes them. Words must be non-empty (`NonEmptyWords`), because an empty alternative is not modelled. `Cog.Snitch.Valid` holds this for every stored group, and every handler requires and keeps `Valid`.
- Cog.Snitch.WordsAdd: requires the added words to be non-empty. The original would store an empty word, whose pattern the model does not cover.
- Iteration order is not fixed. The original iterates the groups, the stored targets and the match set in an order the language chooses. `Notify.ListSet` and `Notify.ListTargets` pick some order, and the contracts hold for every order.
- Cog.StoreTargets: states the posted lines index by index. The lines are built after the loop instead of being appended inside it.
- Cog.Snitch.WordsRemove and Cog.Snitch.SnitchDel: return `crashed` for the exception the original raises. The traceback and its message to the user are not modelled.
