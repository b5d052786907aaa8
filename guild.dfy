/**
 * An abstract server ("guild"): its members, roles and channels in list
 * order, and `_identify_target`, which turns the text of a `snitch to`
 * argument into one of them.
 */
module Guilds {
  import opened Wrappers
  import opened Text

  datatype ChannelKind = TextChannel | VoiceChannel | CategoryChannel | StageChannel | ForumChannel

  datatype Member = Member(id: nat, name: string, displayName: string, bot: bool, roleIds: set<nat>)
  datatype Role = Role(id: nat, name: string)
  datatype Channel = Channel(id: nat, name: string, kind: ChannelKind)
  datatype Guild = Guild(id: nat, name: string, members: seq<Member>, roles: seq<Role>, channels: seq<Channel>)

  /** What `_identify_target` can return. */
  datatype Entity = MemberEntity(member: Member) | RoleEntity(role: Role) | ChannelEntity(channel: Channel)

  /** The stored `type` of a target: the class name of the entity it was resolved to. */
  datatype TargetType = MemberType | RoleType | ChannelType(kind: ChannelKind)

  /** A stored target: `{"id": ..., "type": ...}`. */
  datatype Target = Target(id: nat, kind: TargetType)

  function EntityId(e: Entity): nat
  {
    match e
    case MemberEntity(m) => m.id
    case RoleEntity(r) => r.id
    case ChannelEntity(c) => c.id
  }

  /** The record `_snitch_add` stores for a resolved entity. */
  function TargetOf(e: Entity): (t: Target)
    ensures t.id == EntityId(e)
    ensures t.kind == MemberType <==> e.MemberEntity?
    ensures t.kind == RoleType <==> e.RoleEntity?
    ensures t.kind.ChannelType? <==> e.ChannelEntity?
    ensures e.ChannelEntity? ==> t.kind == ChannelType(e.channel.kind)
  {
    match e
    case MemberEntity(m) => Target(m.id, MemberType)
    case RoleEntity(r) => Target(r.id, RoleType)
    case ChannelEntity(c) => Target(c.id, ChannelType(c.kind))
  }

  /** Index of the first element of `s` that satisfies `p`. */
  function FindFirst<T>(s: seq<T>, p: T -> bool): (r: Option<nat>)
    ensures r.Some? ==> r.value < |s| && p(s[r.value]) && forall j :: 0 <= j < r.value ==> !p(s[j])
    ensures r.None? ==> forall j :: 0 <= j < |s| ==> !p(s[j])
  {
    if s == [] then None
    else if p(s[0]) then Some(0)
    else match FindFirst(s[1..], p)
      case Some(k) => Some(k + 1)
      case None => None
  }

  /** `guild.get_member(id)`. */
  function GetMember(g: Guild, id: nat): (r: Option<Member>)
    ensures r.Some? ==> r.value in g.members && r.value.id == id
    ensures r.None? <==> forall j :: 0 <= j < |g.members| ==> g.members[j].id != id
  {
    match FindFirst(g.members, (m: Member) => m.id == id)
    case Some(k) => Some(g.members[k])
    case None => None
  }

  /** `guild.get_role(id)`. */
  function GetRole(g: Guild, id: nat): (r: Option<Role>)
    ensures r.Some? ==> r.value in g.roles && r.value.id == id
    ensures r.None? <==> forall j :: 0 <= j < |g.roles| ==> g.roles[j].id != id
  {
    match FindFirst(g.roles, (x: Role) => x.id == id)
    case Some(k) => Some(g.roles[k])
    case None => None
  }

  /** `guild.get_channel(id)`: a channel of any kind. */
  function GetChannel(g: Guild, id: nat): (r: Option<Channel>)
    ensures r.Some? ==> r.value in g.channels && r.value.id == id
    ensures r.None? <==> forall j :: 0 <= j < |g.channels| ==> g.channels[j].id != id
  {
    match FindFirst(g.channels, (c: Channel) => c.id == id)
    case Some(k) => Some(g.channels[k])
    case None => None
  }

  /** `role.members`: every member for the default role (whose id is the guild's), otherwise those holding it. */
  function RoleMembers(g: Guild, role: Role): (ms: seq<Member>)
    ensures forall m :: m in ms <==> m in g.members && (role.id == g.id || role.id in m.roleIds)
  {
    if role.id == g.id then g.members else Holders(g.members, role.id)
  }

  /** The members of `ms`, in order, that hold the role `roleId`. */
  function Holders(ms: seq<Member>, roleId: nat): (r: seq<Member>)
    ensures |r| <= |ms|
    ensures forall m :: m in r <==> m in ms && roleId in m.roleIds
  {
    if ms == [] then []
    else
      assert ms == [ms[0]] + ms[1..];
      (if roleId in ms[0].roleIds then [ms[0]] else []) + Holders(ms[1..], roleId)
  }

  /** Filtering distributes over concatenation, so the holders keep their order and multiplicity. */
  lemma {:induction false} HoldersAppend(a: seq<Member>, b: seq<Member>, roleId: nat)
    ensures Holders(a + b, roleId) == Holders(a, roleId) + Holders(b, roleId)
  {
    if a != [] {
      assert (a + b)[0] == a[0] && (a + b)[1..] == a[1..] + b;
      HoldersAppend(a[1..], b, roleId);
    } else {
      assert a + b == b;
    }
  }

  /** Characters that mention syntax wraps around an id: `<@!123>`, `<#123>`, `<@&123>`. */
  const MentionChars: set<char> := {'!', '<', '#', '>', '@', '&'}

  /** The entity is one of the guild's members, roles or channels. */
  predicate InGuild(g: Guild, e: Entity)
  {
    match e
    case MemberEntity(m) => m in g.members
    case RoleEntity(r) => r in g.roles
    case ChannelEntity(c) => c in g.channels
  }

  /** The entity answers to the name: a role by name, a member by name or display name, a text channel by name. */
  predicate NamedBy(e: Entity, text: string)
  {
    match e
    case MemberEntity(m) => MemberNamed(m, text)
    case RoleEntity(r) => RoleNamed(r, text)
    case ChannelEntity(c) => TextChannelNamed(c, text)
  }

  /** A numeric argument is looked up by id: member, then role, then channel. */
  function LookupId(g: Guild, id: nat): (r: Option<Entity>)
    ensures r.Some? ==> InGuild(g, r.value) && EntityId(r.value) == id
    ensures r.None? <==> NoMemberWithId(g, id) && NoRoleWithId(g, id) && NoChannelWithId(g, id)
  {
    match GetMember(g, id)
    case Some(m) => Some(MemberEntity(m))
    case None =>
      match GetRole(g, id)
      case Some(r) => Some(RoleEntity(r))
      case None =>
        match GetChannel(g, id)
        case Some(c) => Some(ChannelEntity(c))
        case None => None
  }

  predicate RoleNamed(r: Role, text: string)
  {
    EqualsIgnoreCase(r.name, text)
  }

  predicate MemberNamed(m: Member, text: string)
  {
    EqualsIgnoreCase(m.name, text) || EqualsIgnoreCase(m.displayName, text)
  }

  predicate TextChannelNamed(c: Channel, text: string)
  {
    EqualsIgnoreCase(c.name, text) && c.kind == TextChannel
  }

  /** The argument with mention syntax stripped is a number. */
  predicate IsIdText(target: string)
  {
    IsNumeric(Strip(target, MentionChars))
  }

  function IdOf(target: string): nat
    requires IsIdText(target)
  {
    ParseNat(Strip(target, MentionChars))
  }

  predicate NoMemberWithId(g: Guild, id: nat)
  {
    forall j :: 0 <= j < |g.members| ==> g.members[j].id != id
  }

  predicate NoRoleWithId(g: Guild, id: nat)
  {
    forall j :: 0 <= j < |g.roles| ==> g.roles[j].id != id
  }

  predicate NoChannelWithId(g: Guild, id: nat)
  {
    forall j :: 0 <= j < |g.channels| ==> g.channels[j].id != id
  }

  predicate NoRoleNamed(g: Guild, text: string)
  {
    forall j :: 0 <= j < |g.roles| ==> !RoleNamed(g.roles[j], text)
  }

  predicate NoMemberNamed(g: Guild, text: string)
  {
    forall j :: 0 <= j < |g.members| ==> !MemberNamed(g.members[j], text)
  }

  predicate NoTextChannelNamed(g: Guild, text: string)
  {
    forall j :: 0 <= j < |g.channels| ==> !TextChannelNamed(g.channels[j], text)
  }

  /** `i` is the first role, in list order, with that name. */
  predicate FirstRoleNamed(g: Guild, text: string, i: int)
  {
    0 <= i < |g.roles| && RoleNamed(g.roles[i], text) && forall j :: 0 <= j < i ==> !RoleNamed(g.roles[j], text)
  }

  predicate FirstMemberNamed(g: Guild, text: string, i: int)
  {
    0 <= i < |g.members| && MemberNamed(g.members[i], text) && forall j :: 0 <= j < i ==> !MemberNamed(g.members[j], text)
  }

  predicate FirstTextChannelNamed(g: Guild, text: string, i: int)
  {
    && 0 <= i < |g.channels| && TextChannelNamed(g.channels[i], text)
    && forall j :: 0 <= j < i ==> !TextChannelNamed(g.channels[j], text)
  }

  function RoleNamedBy(text: string): Role -> bool
  {
    (x: Role) => RoleNamed(x, text)
  }

  function MemberNamedBy(text: string): Member -> bool
  {
    (m: Member) => MemberNamed(m, text)
  }

  function TextChannelNamedBy(text: string): Channel -> bool
  {
    (c: Channel) => TextChannelNamed(c, text)
  }

  /** Any other argument is matched by name: roles, then members, then text channels; first match wins. */
  function LookupName(g: Guild, text: string): (r: Option<Entity>)
    ensures r.Some? ==> InGuild(g, r.value) && NamedBy(r.value, text)
  {
    match FindFirst(g.roles, RoleNamedBy(text))
    case Some(i) => Some(RoleEntity(g.roles[i]))
    case None =>
      match FindFirst(g.members, MemberNamedBy(text))
      case Some(i) => Some(MemberEntity(g.members[i]))
      case None =>
        match FindFirst(g.channels, TextChannelNamedBy(text))
        case Some(i) => Some(ChannelEntity(g.channels[i]))
        case None => None
  }

  /** The name lookup returns the first match of the first kind that has one. */
  lemma LookupNameFirstMatch(g: Guild, text: string)
    ensures var r := LookupName(g, text);
            && (r.Some? && r.value.RoleEntity? ==> exists i :: FirstRoleNamed(g, text, i) && r.value.role == g.roles[i])
            && (r.Some? && r.value.MemberEntity? ==>
                  NoRoleNamed(g, text) && exists i :: FirstMemberNamed(g, text, i) && r.value.member == g.members[i])
            && (r.Some? && r.value.ChannelEntity? ==>
                  && NoRoleNamed(g, text) && NoMemberNamed(g, text)
                  && exists i :: FirstTextChannelNamed(g, text, i) && r.value.channel == g.channels[i])
            && (r.None? <==> NoRoleNamed(g, text) && NoMemberNamed(g, text) && NoTextChannelNamed(g, text))
  {
    match FindFirst(g.roles, RoleNamedBy(text))
    case Some(i) =>
      assert FirstRoleNamed(g, text, i);
    case None =>
      match FindFirst(g.members, MemberNamedBy(text))
      case Some(i) =>
        assert FirstMemberNamed(g, text, i);
      case None =>
        match FindFirst(g.channels, TextChannelNamedBy(text))
        case Some(i) =>
          assert FirstTextChannelNamed(g, text, i);
        case None =>
  }

  /**
   * `_identify_target`: a numeric argument (once mention syntax is stripped)
   * is looked up by id, any other by name.
   */
  function IdentifyTarget(g: Guild, target: string): (r: Option<Entity>)
    ensures r.Some? ==> InGuild(g, r.value)
    ensures r.Some? && IsIdText(target) ==> EntityId(r.value) == IdOf(target)
    ensures r.Some? && !IsIdText(target) ==> NamedBy(r.value, target)
  {
    if IsIdText(target) then LookupId(g, IdOf(target)) else LookupName(g, target)
  }

  /**
   * The priority `_identify_target` follows. A numeric argument resolves by
   * id alone: to a member with that id if there is one, else to a role, else
   * to a channel of any kind, else to nothing; names are never consulted. Any
   * other argument resolves to the first role with that name (ignoring case);
   * failing that, the first member whose name or display name it is; failing
   * that, the first text channel with that name.
   */
  lemma IdentifyTargetPriority(g: Guild, target: string)
    ensures var r := IdentifyTarget(g, target);
            IsIdText(target) ==>
              && (r.Some? ==> EntityId(r.value) == IdOf(target))
              && (r.Some? && r.value.MemberEntity? ==> r.value.member in g.members)
              && (r.Some? && r.value.RoleEntity? ==> r.value.role in g.roles && NoMemberWithId(g, IdOf(target)))
              && (r.Some? && r.value.ChannelEntity? ==>
                    r.value.channel in g.channels && NoMemberWithId(g, IdOf(target)) && NoRoleWithId(g, IdOf(target)))
              && (r.None? <==> NoMemberWithId(g, IdOf(target)) && NoRoleWithId(g, IdOf(target)) && NoChannelWithId(g, IdOf(target)))
    ensures var r := IdentifyTarget(g, target);
            !IsIdText(target) ==>
              && (r.Some? && r.value.RoleEntity? ==> exists i :: FirstRoleNamed(g, target, i) && r.value.role == g.roles[i])
              && (r.Some? && r.value.MemberEntity? ==>
                    NoRoleNamed(g, target) && exists i :: FirstMemberNamed(g, target, i) && r.value.member == g.members[i])
              && (r.Some? && r.value.ChannelEntity? ==>
                    && NoRoleNamed(g, target) && NoMemberNamed(g, target)
                    && exists i :: FirstTextChannelNamed(g, target, i) && r.value.channel == g.channels[i])
              && (r.None? <==> NoRoleNamed(g, target) && NoMemberNamed(g, target) && NoTextChannelNamed(g, target))
  {
    if !IsIdText(target) {
      LookupNameFirstMatch(g, target);
    }
  }

  /** A mention such as `<@!123>` or `<#123>` is read as the id it wraps. */
  lemma MentionIsIdText(pre: string, id: nat, post: string)
    requires forall c :: c in pre ==> c in MentionChars
    requires forall c :: c in post ==> c in MentionChars
    ensures IsIdText(pre + ShowNat(id) + post)
    ensures IdOf(pre + ShowNat(id) + post) == id
  {
    var d := ShowNat(id);
    assert d[0] !in MentionChars && d[|d| - 1] !in MentionChars by {
      assert IsDigit(d[0]) && IsDigit(d[|d| - 1]);
    }
    StripWrapped(pre, d, post, MentionChars);
  }
}
