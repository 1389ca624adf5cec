/** The InfoDoc plugin: consent (EULA) gating of a chat bot's replies,
    tracked per private user or per group, and a keyword-to-URL lookup.

    The consent dictionary maps a subject key to an "accepted" flag. The
    pure queries below take the dictionary they read as a parameter; the
    handlers that change it are methods of `InfoDocPlugin`, each specified
    by a pure function of the dictionary before the call. */
module InfoDoc {
  import opened Strings

  datatype Option<T> = None | Some(value: T)

  /** Prefix that turns a group id into a subject key. */
  const GroupPrefix: string := "group_"

  /** Replies whose triggering text starts with this are never gated. */
  const EulaCommandPrefix: string := "/eula"

  /** Separator of the keyword listing of the `info` command ('、'). */
  const KeywordSeparator: char := '\U{3001}'

  /** What the plugin puts in a reply chain. `Content` stands for any
      component the host or another handler placed there; the rest are the
      plugin's own messages, told apart by kind (their wording is not
      modelled, only the keyword and URL content they carry). */
  datatype Message =
    | Content(text: string)
    | EulaPrompt(inGroup: bool)
    | EulaAccepted(inGroup: bool)
    | EulaDeclined(inGroup: bool)
    | EulaParamError
    | InfoKeywords(listing: string)
    | InfoUnavailable
    | InfoPage(keyword: string, url: string)
    | InfoNotFound(keyword: string, listing: string)

  /** One configured document link. */
  datatype Link = Link(keyword: string, url: string)

  /** One `eula` command: who sent it and its argument. */
  datatype Command = Command(sender: string, arg: string)

  // ---------------------------------------------------------------------
  // Subject keys

  /** A message comes from a group when it carries a non-empty group id. */
  predicate InGroup(groupId: Option<string>): (inGroup: bool)
    ensures inGroup <==> groupId != None && groupId != Some("")
  {
    groupId.Some? && groupId.value != ""
  }

  /** The dictionary key of the subject a message belongs to: the prefixed
      group id in a group, the raw user id in a private chat. */
  function SubjectKey(userId: string, groupId: Option<string>): (key: string)
    ensures InGroup(groupId) ==> GroupPrefix <= key && key[|GroupPrefix|..] == groupId.value
    ensures !InGroup(groupId) ==> key == userId
  {
    if InGroup(groupId) then GroupPrefix + groupId.value else userId
  }

  /** Whether `s` starts with the group prefix, as every group key does. */
  predicate HasGroupPrefix(s: string)
  {
    GroupPrefix <= s
  }

  /** Every member of a group shares the group's key. */
  lemma GroupKeyShared(a: string, b: string, groupId: Option<string>)
    requires InGroup(groupId)
    ensures SubjectKey(a, groupId) == SubjectKey(b, groupId)
    ensures HasGroupPrefix(SubjectKey(a, groupId))
  {
  }

  /** Two groups share a key only when their ids are equal. */
  lemma GroupKeysDistinct(a: string, g: Option<string>, b: string, h: Option<string>)
    requires InGroup(g) && InGroup(h)
    ensures SubjectKey(a, g) == SubjectKey(b, h) <==> g == h
  {
    var p := |GroupPrefix|;
    if SubjectKey(a, g) == SubjectKey(b, h) {
      assert g.value == SubjectKey(a, g)[p..];
      assert h.value == SubjectKey(b, h)[p..];
    }
  }

  /** A group key differs from a private user's key unless the user id
      itself starts with the group prefix. */
  lemma GroupKeyAvoidsUserKey(u: string, a: string, g: Option<string>)
    requires InGroup(g)
    requires !HasGroupPrefix(u)
    ensures SubjectKey(u, None) != SubjectKey(a, g)
  {
  }

  /** A user id and a group id with the same literal value never share a
      key: the group key is longer by the prefix. */
  lemma SameLiteralNeverCollides(x: string, a: string)
    requires x != ""
    ensures SubjectKey(x, None) != SubjectKey(a, Some(x))
  {
    assert |SubjectKey(a, Some(x))| == |x| + |GroupPrefix|;
  }

  /** A private user's key equals a group's key exactly when the user id is
      the prefix followed by that group's id. */
  lemma UserKeyCollidesExactly(u: string, a: string, g: Option<string>)
    requires InGroup(g)
    ensures SubjectKey(u, None) == SubjectKey(a, g) <==> u == GroupPrefix + g.value
  {
  }

  /** The prefix does not fully separate the two key spaces: a private user
      whose id is "group_42" has the key of group "42". */
  lemma UserKeyCanCollideWithGroupKey(a: string)
    ensures SubjectKey("group_42", None) == SubjectKey(a, Some("42"))
  {
  }

  // ---------------------------------------------------------------------
  // Default-deny queries

  /** Whether the subject has accepted: its stored flag, or false when it
      has no entry. */
  function CheckEulaStatus(status: map<string, bool>, userId: string, groupId: Option<string>): (accepted: bool)
    ensures accepted ==> SubjectKey(userId, groupId) in status
    ensures SubjectKey(userId, groupId) in status ==> accepted == status[SubjectKey(userId, groupId)]
  {
    var key := SubjectKey(userId, groupId);
    if key in status then status[key] else false
  }

  /** Whether the subject has never been seen: it has no entry at all. */
  function IsNewTarget(status: map<string, bool>, userId: string, groupId: Option<string>): (isNew: bool)
    ensures isNew ==> !CheckEulaStatus(status, userId, groupId)
  {
    SubjectKey(userId, groupId) !in status
  }

  /** Being new depends only on which keys are present, not on the flags. */
  lemma IsNewTargetIgnoresFlags(s: map<string, bool>, t: map<string, bool>, userId: string, groupId: Option<string>)
    requires s.Keys == t.Keys
    ensures IsNewTarget(s, userId, groupId) == IsNewTarget(t, userId, groupId)
  {
  }

  // ---------------------------------------------------------------------
  // The response gate

  /** Whether the text that triggered a reply starts with `/eula`. */
  predicate BypassesGate(messageStr: string): (bypass: bool)
    ensures bypass <==> |messageStr| >= 5 && messageStr[..5] == "/eula"
  {
    EulaCommandPrefix <= messageStr
  }

  /** The reply chain after the gate: unchanged for an `/eula…` message or
      an accepted subject, otherwise the one prompt for the context. */
  function GateReplies(status: map<string, bool>, userId: string, groupId: Option<string>,
                       messageStr: string, chain: seq<Message>): (out: seq<Message>)
    ensures out == chain || out == [EulaPrompt(InGroup(groupId))]
    ensures out != chain ==> !CheckEulaStatus(status, userId, groupId)
  {
    if !BypassesGate(messageStr)
       && (IsNewTarget(status, userId, groupId) || !CheckEulaStatus(status, userId, groupId))
    then [EulaPrompt(InGroup(groupId))]
    else chain
  }

  /** The dictionary after the gate: a subject met for the first time (and
      not through an `/eula…` message) is registered as not accepted. */
  function GateStatus(status: map<string, bool>, userId: string, groupId: Option<string>,
                      messageStr: string): (after: map<string, bool>)
    ensures forall k :: k in status ==> k in after && after[k] == status[k]
    ensures after.Keys <= status.Keys + {SubjectKey(userId, groupId)}
  {
    if !BypassesGate(messageStr) && IsNewTarget(status, userId, groupId)
    then status[SubjectKey(userId, groupId) := false]
    else status
  }

  /** An `/eula…` message passes the gate untouched. */
  lemma GateBypass(status: map<string, bool>, userId: string, groupId: Option<string>,
                   messageStr: string, chain: seq<Message>)
    requires BypassesGate(messageStr)
    ensures GateReplies(status, userId, groupId, messageStr, chain) == chain
    ensures GateStatus(status, userId, groupId, messageStr) == status
  {
  }

  /** Outside `/eula…` messages, the reply is replaced by the prompt exactly
      when the subject is not mapped to true. */
  lemma GateDecision(status: map<string, bool>, userId: string, groupId: Option<string>,
                     messageStr: string, chain: seq<Message>)
    requires !BypassesGate(messageStr)
    ensures CheckEulaStatus(status, userId, groupId) ==>
              GateReplies(status, userId, groupId, messageStr, chain) == chain
              && GateStatus(status, userId, groupId, messageStr) == status
    ensures !CheckEulaStatus(status, userId, groupId) ==>
              GateReplies(status, userId, groupId, messageStr, chain) == [EulaPrompt(InGroup(groupId))]
  {
  }

  /** First contact: an unknown subject is stored as false and no other
      entry appears or changes; a known subject's entry is left alone. */
  lemma GateRegistersFirstContact(status: map<string, bool>, userId: string, groupId: Option<string>,
                                  messageStr: string)
    ensures var after := GateStatus(status, userId, groupId, messageStr);
            var key := SubjectKey(userId, groupId);
            && (!BypassesGate(messageStr) && key !in status ==>
                  key in after && !after[key] && after.Keys == status.Keys + {key})
            && (BypassesGate(messageStr) || key in status ==> after == status)
  {
  }

  /** The gate never changes whether any subject has accepted. */
  lemma GatePreservesVerdicts(status: map<string, bool>, userId: string, groupId: Option<string>,
                              messageStr: string, other: string, otherGroup: Option<string>)
    ensures CheckEulaStatus(GateStatus(status, userId, groupId, messageStr), other, otherGroup)
            == CheckEulaStatus(status, other, otherGroup)
  {
  }

  /** Passing the gate twice registers nothing more and still prompts. */
  lemma GateIdempotent(status: map<string, bool>, userId: string, groupId: Option<string>,
                       messageStr: string, chain: seq<Message>)
    ensures var after := GateStatus(status, userId, groupId, messageStr);
            && GateStatus(after, userId, groupId, messageStr) == after
            && GateReplies(after, userId, groupId, messageStr, chain)
               == GateReplies(status, userId, groupId, messageStr, chain)
  {
  }

  // ---------------------------------------------------------------------
  // The `eula` command

  /** The flag an `eula` argument asks for, compared case-insensitively;
      None for anything other than "true" or "false". */
  function EulaChoice(arg: string): (choice: Option<bool>)
    ensures choice == Some(true) <==> Lower(arg) == "true"
    ensures choice == Some(false) <==> Lower(arg) == "false"
    ensures choice == None <==> Lower(arg) != "true" && Lower(arg) != "false"
  {
    var choice := Lower(arg);
    if choice == "true" then Some(true)
    else if choice == "false" then Some(false)
    else None
  }

  /** "true" is recognised in any mix of letter cases and nothing else is. */
  lemma EulaChoiceTrue(arg: string)
    ensures EulaChoice(arg) == Some(true) <==>
              |arg| == 4 && arg[0] in "tT" && arg[1] in "rR" && arg[2] in "uU" && arg[3] in "eE"
  {
  }

  /** "false" is recognised in any mix of letter cases and nothing else is. */
  lemma EulaChoiceFalse(arg: string)
    ensures EulaChoice(arg) == Some(false) <==>
              |arg| == 5 && arg[0] in "fF" && arg[1] in "aA" && arg[2] in "lL" && arg[3] in "sS"
              && arg[4] in "eE"
  {
  }

  /** The dictionary after an `eula` command: the subject's flag set to the
      chosen value, or no change for an invalid argument. */
  function EulaStatus(status: map<string, bool>, userId: string, groupId: Option<string>,
                      arg: string): (after: map<string, bool>)
    ensures after.Keys <= status.Keys + {SubjectKey(userId, groupId)}
    ensures forall k :: k in status && k != SubjectKey(userId, groupId) ==> k in after && after[k] == status[k]
  {
    match EulaChoice(arg)
    case Some(v) => status[SubjectKey(userId, groupId) := v]
    case None => status
  }

  /** The messages an `eula` command yields. */
  function EulaReplies(groupId: Option<string>, arg: string): (replies: seq<Message>)
    ensures |replies| == 1
  {
    match EulaChoice(arg)
    case Some(true) => [EulaAccepted(InGroup(groupId))]
    case Some(false) => [EulaDeclined(InGroup(groupId))]
    case None => [EulaParamError]
  }

  /** A valid argument makes the subject known with exactly the chosen
      verdict and one confirmation; an invalid one changes nothing and
      yields only the parameter error. */
  lemma EulaSetsVerdict(status: map<string, bool>, userId: string, groupId: Option<string>, arg: string)
    ensures var after := EulaStatus(status, userId, groupId, arg);
            match EulaChoice(arg)
            case Some(v) =>
              && CheckEulaStatus(after, userId, groupId) == v
              && !IsNewTarget(after, userId, groupId)
              && EulaReplies(groupId, arg)
                 == [if v then EulaAccepted(InGroup(groupId)) else EulaDeclined(InGroup(groupId))]
            case None =>
              after == status && EulaReplies(groupId, arg) == [EulaParamError]
  {
  }

  /** A group command leaves every private user's verdict alone, unless the
      user id starts with the group prefix. */
  lemma GroupCommandKeepsPrivateVerdicts(status: map<string, bool>, sender: string, groupId: Option<string>,
                                         arg: string, u: string)
    requires InGroup(groupId)
    requires !HasGroupPrefix(u)
    ensures CheckEulaStatus(EulaStatus(status, sender, groupId, arg), u, None)
            == CheckEulaStatus(status, u, None)
  {
  }

  /** The dictionary after a series of `eula` commands in one context, in
      the order they were sent. */
  function RunEula(status: map<string, bool>, groupId: Option<string>, cmds: seq<Command>): map<string, bool>
  {
    if cmds == [] then status
    else
      var last := cmds[|cmds| - 1];
      EulaStatus(RunEula(status, groupId, cmds[..|cmds| - 1]), last.sender, groupId, last.arg)
  }

  /** The choice of the last command with a valid argument, if any. */
  function LastChoice(cmds: seq<Command>): Option<bool>
  {
    if cmds == [] then None
    else match EulaChoice(cmds[|cmds| - 1].arg)
      case Some(v) => Some(v)
      case None => LastChoice(cmds[..|cmds| - 1])
  }

  /** Group sharing, last write wins: after any series of `eula` commands
      from any members of a group, every member sees the verdict of the last
      valid command, or the earlier verdict when there was none. */
  lemma {:induction false} GroupLastWriteWins(status: map<string, bool>, groupId: Option<string>,
                                              cmds: seq<Command>, member: string)
    requires InGroup(groupId)
    ensures CheckEulaStatus(RunEula(status, groupId, cmds), member, groupId)
            == match LastChoice(cmds)
               case Some(v) => v
               case None => CheckEulaStatus(status, member, groupId)
  {
    if cmds != [] {
      var init, last := cmds[..|cmds| - 1], cmds[|cmds| - 1];
      GroupLastWriteWins(status, groupId, init, member);
      GroupKeyShared(last.sender, member, groupId);
    }
  }

  // ---------------------------------------------------------------------
  // The `info` command

  /** The configured keywords, in configuration order. */
  function Keywords(links: seq<Link>): (ks: seq<string>)
    ensures |ks| == |links|
    ensures forall i :: 0 <= i < |links| ==> ks[i] == links[i].keyword
  {
    if links == [] then [] else [links[0].keyword] + Keywords(links[1..])
  }

  /** No keyword is configured twice (the keys of a dictionary). */
  predicate DistinctKeywords(links: seq<Link>)
  {
    forall i, j :: 0 <= i < j < |links| ==> links[i].keyword != links[j].keyword
  }

  /** The URL configured for a keyword, if any. */
  function FindLink(links: seq<Link>, keyword: string): (url: Option<string>)
    ensures url.Some? <==> keyword in Keywords(links)
  {
    if links == [] then None
    else if links[0].keyword == keyword then Some(links[0].url)
    else FindLink(links[1..], keyword)
  }

  /** A configured keyword is found with its own URL. */
  lemma {:induction false} FindLinkExact(links: seq<Link>, i: nat)
    requires DistinctKeywords(links)
    requires i < |links|
    ensures FindLink(links, links[i].keyword) == Some(links[i].url)
  {
    if i > 0 {
      assert links[0].keyword != links[i].keyword;
      assert links[1..][i - 1] == links[i];
      FindLinkExact(links[1..], i - 1);
    }
  }

  /** The messages the `info` command yields for an optional keyword. */
  function HandleInfo(links: seq<Link>, keyword: Option<string>): (replies: seq<Message>)
    ensures |replies| == 1
  {
    if keyword.None? || keyword.value == "" then
      if |links| > 0 then [InfoKeywords(Join(Keywords(links), KeywordSeparator))]
      else [InfoUnavailable]
    else
      match FindLink(links, keyword.value)
      case Some(url) => [InfoPage(keyword.value, url)]
      case None => [InfoNotFound(keyword.value, Join(Keywords(links), KeywordSeparator))]
  }

  /** No configured keyword contains the listing separator. */
  predicate NoSeparatorInKeywords(links: seq<Link>)
  {
    forall i :: 0 <= i < |links| ==> KeywordSeparator !in links[i].keyword
  }

  /** Without a keyword, the reply lists exactly the configured keywords in
      order, or says that none are configured. */
  lemma {:induction false} InfoListsKeywords(links: seq<Link>, keyword: Option<string>)
    requires keyword.None? || keyword.value == ""
    ensures |links| == 0 ==> HandleInfo(links, keyword) == [InfoUnavailable]
    ensures |links| > 0 ==> HandleInfo(links, keyword)[0].InfoKeywords?
    ensures NoSeparatorInKeywords(links) && |links| > 0 ==>
              Split(HandleInfo(links, keyword)[0].listing, KeywordSeparator) == Keywords(links)
  {
    if NoSeparatorInKeywords(links) && |links| > 0 {
      SplitJoin(Keywords(links), KeywordSeparator);
    }
  }

  /** A configured, non-empty keyword yields exactly its URL. */
  lemma InfoFindsUrl(links: seq<Link>, i: nat)
    requires DistinctKeywords(links)
    requires i < |links| && links[i].keyword != ""
    ensures HandleInfo(links, Some(links[i].keyword)) == [InfoPage(links[i].keyword, links[i].url)]
  {
    FindLinkExact(links, i);
  }

  /** Any other keyword yields an error that lists the configured keywords. */
  lemma {:induction false} InfoReportsUnknown(links: seq<Link>, keyword: string)
    requires keyword != "" && keyword !in Keywords(links)
    ensures HandleInfo(links, Some(keyword))[0].InfoNotFound?
    ensures HandleInfo(links, Some(keyword))[0].keyword == keyword
    ensures |links| == 0 ==> HandleInfo(links, Some(keyword))[0].listing == ""
    ensures NoSeparatorInKeywords(links) && |links| > 0 ==>
              Split(HandleInfo(links, Some(keyword))[0].listing, KeywordSeparator) == Keywords(links)
  {
    if NoSeparatorInKeywords(links) && |links| > 0 {
      SplitJoin(Keywords(links), KeywordSeparator);
    }
  }

  // ---------------------------------------------------------------------
  // Storage of the consent dictionary

  /** How a write of the consent file ends. The file is first opened for
      writing, which empties it, and then the whole map is dumped into it. */
  datatype WriteOutcome = Written | OpenFailed | DumpFailed

  /** What storage holds after writing `m`: exactly `m` when the write
      completes; the earlier content when the file could not be opened;
      nothing known (`None`: emptied or partly written) when the dump fails
      after the file was opened. */
  function StoredAfterWrite(before: Option<map<string, bool>>, m: map<string, bool>,
                            outcome: WriteOutcome): (after: Option<map<string, bool>>)
    ensures after == Some(m) <==> outcome.Written? || (outcome.OpenFailed? && before == Some(m))
    ensures after.Some? ==> after == Some(m) || after == before
  {
    match outcome
    case Written => Some(m)
    case OpenFailed => before
    case DumpFailed => None
  }

  // ---------------------------------------------------------------------
  // The plugin object

  class InfoDocPlugin {
    /** Subject key to "accepted" flag. */
    var userEulaStatus: map<string, bool>
    /** The document links, fixed at start-up. */
    const infoLinks: seq<Link>
    /** What the consent file holds: `Some(m)` when it holds exactly the
        mapping `m`, `None` when its content is not known to be a mapping. */
    ghost var stored: Option<map<string, bool>>

    /** The link table has the distinct keys of a dictionary. */
    predicate LinksValid()
    {
      DistinctKeywords(infoLinks)
    }

    /** The plugin as start-up leaves it: the loaded links, the loaded
        consent dictionary, and what the consent file holds at that point,
        which need not be the loaded dictionary. */
    constructor (links: seq<Link>, users: map<string, bool>, onDisk: Option<map<string, bool>>)
      requires DistinctKeywords(links)
      ensures infoLinks == links && LinksValid()
      ensures userEulaStatus == users && stored == onDisk
    {
      infoLinks := links;
      userEulaStatus := users;
      stored := onDisk;
    }

    /** Writes the whole dictionary to storage; `outcome` is how the write
        ends. A failure is swallowed and the dictionary stands. */
    method SaveUserEulaStatus(outcome: WriteOutcome)
      modifies this`stored
      ensures stored == StoredAfterWrite(old(stored), userEulaStatus, outcome)
    {
      match outcome
      case Written => stored := Some(userEulaStatus);
      case OpenFailed =>
      case DumpFailed => stored := None;
    }

    /** The `info [keyword]` command, answered from this plugin's links. */
    function Info(keyword: Option<string>): (replies: seq<Message>)
      ensures |replies| == 1
    {
      HandleInfo(infoLinks, keyword)
    }

    /** The gate run on every outgoing reply chain before delivery. */
    method OnDecoratingResult(userId: string, groupId: Option<string>, messageStr: string,
                              chain: seq<Message>, outcome: WriteOutcome)
      returns (newChain: seq<Message>)
      modifies this`userEulaStatus, this`stored
      ensures newChain == GateReplies(old(userEulaStatus), userId, groupId, messageStr, chain)
      ensures userEulaStatus == GateStatus(old(userEulaStatus), userId, groupId, messageStr)
      ensures stored == if !BypassesGate(messageStr) && IsNewTarget(old(userEulaStatus), userId, groupId)
                        then StoredAfterWrite(old(stored), userEulaStatus, outcome)
                        else old(stored)
    {
      newChain := chain;
      if EulaCommandPrefix <= messageStr {
        return;
      }
      if IsNewTarget(userEulaStatus, userId, groupId) || !CheckEulaStatus(userEulaStatus, userId, groupId) {
        newChain := [];
        if InGroup(groupId) {
          if IsNewTarget(userEulaStatus, userId, groupId) {
            var groupKey := GroupPrefix + groupId.value;
            userEulaStatus := userEulaStatus[groupKey := false];
            SaveUserEulaStatus(outcome);
          }
        } else {
          if IsNewTarget(userEulaStatus, userId, groupId) {
            userEulaStatus := userEulaStatus[userId := false];
            SaveUserEulaStatus(outcome);
          }
        }
        newChain := newChain + [EulaPrompt(InGroup(groupId))];
      }
    }

    /** The `eula <true|false>` command. */
    method HandleEula(userId: string, groupId: Option<string>, arg: string, outcome: WriteOutcome)
      returns (replies: seq<Message>)
      modifies this`userEulaStatus, this`stored
      ensures replies == EulaReplies(groupId, arg)
      ensures userEulaStatus == EulaStatus(old(userEulaStatus), userId, groupId, arg)
      ensures stored == if EulaChoice(arg).Some?
                        then StoredAfterWrite(old(stored), userEulaStatus, outcome)
                        else old(stored)
    {
      var choice := Lower(arg);
      if choice == "true" {
        if InGroup(groupId) {
          var groupKey := GroupPrefix + groupId.value;
          userEulaStatus := userEulaStatus[groupKey := true];
          SaveUserEulaStatus(outcome);
          replies := [EulaAccepted(true)];
        } else {
          userEulaStatus := userEulaStatus[userId := true];
          SaveUserEulaStatus(outcome);
          replies := [EulaAccepted(false)];
        }
      } else if choice == "false" {
        if InGroup(groupId) {
          var groupKey := GroupPrefix + groupId.value;
          userEulaStatus := userEulaStatus[groupKey := false];
          SaveUserEulaStatus(outcome);
          replies := [EulaDeclined(true)];
        } else {
          userEulaStatus := userEulaStatus[userId := false];
          SaveUserEulaStatus(outcome);
          replies := [EulaDeclined(false)];
        }
      } else {
        replies := [EulaParamError];
      }
    }
  }

  /** A plugin built by the constructor answers every configured, non-empty
      keyword with exactly its URL. */
  lemma PluginInfoFindsUrl(p: InfoDocPlugin, i: nat)
    requires p.LinksValid()
    requires i < |p.infoLinks| && p.infoLinks[i].keyword != ""
    ensures p.Info(Some(p.infoLinks[i].keyword)) == [InfoPage(p.infoLinks[i].keyword, p.infoLinks[i].url)]
  {
    InfoFindsUrl(p.infoLinks, i);
  }
}
