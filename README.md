# InfoDoc EULA plugin — Dafny model

This project models the InfoDoc plugin of a chat bot (`InfoDocPlugin` in
`main.py`). The plugin holds back the bot's replies until the user accepts a
usage agreement (EULA). It also answers an `info` command from a table of
document links.

- **Consent dictionary.** A map from a subject key to an "accepted" flag.
  A group message uses the key `"group_" + groupId`. A private message uses
  the raw user id. A missing key counts as not accepted (default-deny).
  Whether a key is present is still visible: it tells a first contact apart.
- **Gate** (`OnDecoratingResult`). It runs on every outgoing reply chain.
  A message whose text starts with `/eula` passes untouched. Otherwise, a
  subject not mapped to `true` has its chain replaced by a single prompt,
  with group or private wording. On first contact the subject is also
  stored as `false`.
- **`eula` command** (`HandleEula`). The argument is lower-cased. `true` or
  `false` sets the subject's flag and yields one confirmation. Anything else
  yields a parameter error and changes nothing. In a group the flag is
  shared by all members, and the last valid command wins.
- **`info` command** (`HandleInfo`). With no keyword, or an empty one, it
  lists the configured keywords joined by `、`, or says that none are
  configured. A configured keyword yields its URL. Any other keyword yields
  an error that lists the keywords.
- **Persistence.** Every change to the dictionary is followed by a write of
  the whole map. The ghost field `stored` holds what the consent file holds:
  `Some(m)` for exactly the mapping `m`, `None` when nothing is known. How
  the write ends is the input `outcome`. The file is opened for writing,
  which empties it, and then the map is dumped. A completed write stores the
  map, and a failed open leaves the file as it was. A failed dump leaves the
  file emptied or partly written. Any failure is swallowed, and the
  in-memory change stands.

Layout: `strings.dfy` (module `Strings`: ASCII lower-casing, join, and a
reference split that undoes the join) and `infodoc.dfy` (module `InfoDoc`).
The pure queries are functions of the map or link list they read. The state
changes are methods of class `InfoDocPlugin`, and each method's `ensures`
equates its results and new state with pure functions of the old state
(`GateReplies`/`GateStatus`, `EulaReplies`/`EulaStatus`). The lemmas prove
what the plugin promises about those functions. The links are a sequence of
`Link` values because the listing follows the table's configuration order.
The `info` command of a plugin `p` is `p.Info(keyword)`, which answers from
the plugin's own link table.

The `group_` prefix keeps a user id and a group id with the same literal
value apart (`SameLiteralNeverCollides`). Keys collide only when a user id
is `group_` followed by some group's id (`UserKeyCollidesExactly`): a
private user whose id is `group_42` gets the key of group `42`
(`UserKeyCanCollideWithGroupKey`).

## Model

| member | source | states |
|---|---|---|
| `InfoDoc.InGroup` | main.py:98-99 | a message is in a group exactly when its group id is present and not the empty string, as Python's truthiness of a string decides at main.py:99 and 153 |
| `InfoDoc.SubjectKey` | main.py:76-82 | in a group, the key is `group_` followed by exactly the group id; otherwise it is the raw user id (the same rule as at main.py:86-92, 124, 161 and 176) |
| `InfoDoc.GroupKeyShared` | main.py:76-79 | in a group, every member's key is the same prefixed group key |
| `InfoDoc.GroupKeysDistinct` | main.py:86-89 | two groups share a key if and only if their ids are equal |
| `InfoDoc.GroupKeyAvoidsUserKey` | main.py:76-82 | a group key differs from a private key whose user id does not start with `group_` |
| `InfoDoc.SameLiteralNeverCollides` | main.py:78-82 | a user id and a non-empty group id with the same literal value never share a key |
| `InfoDoc.UserKeyCollidesExactly` | main.py:78-82 | a private user's key equals a group's key if and only if the user id is `group_` followed by that group's id |
| `InfoDoc.UserKeyCanCollideWithGroupKey` | main.py:76-82 | private user `group_42` and group `42` share one key, so separation is not unconditional |
| `InfoDoc.CheckEulaStatus` | main.py:74-82 | default-deny: true only when the derived key is present, and then it equals the stored flag |
| `InfoDoc.IsNewTarget` | main.py:84-92 | a new subject (key absent) is never accepted |
| `InfoDoc.IsNewTargetIgnoresFlags` | main.py:84-92 | newness depends only on which keys are present, whatever the flags are |
| `InfoDoc.GateReplies` | main.py:102-145 | the chain is either left as it is or becomes the single prompt, and it is replaced only for a subject that has not accepted |
| `InfoDoc.GateStatus` | main.py:122-141 | the gate never alters an existing entry and adds at most the subject's own key |
| `InfoDoc.BypassesGate` | main.py:102 | a reply bypasses the gate exactly when its triggering text has `/eula` as its first five characters |
| `InfoDoc.GateBypass` | main.py:101-103 | text starting with `/eula` leaves both the chain and the dictionary unchanged |
| `InfoDoc.GateDecision` | main.py:105-145 | outside `/eula`, the chain becomes the group or private prompt if and only if the key is not mapped to true; an accepted subject changes nothing |
| `InfoDoc.GateRegistersFirstContact` | main.py:122-141 | an absent key ends up stored as false and no other key is added; a present key is left untouched |
| `InfoDoc.GatePreservesVerdicts` | main.py:122-141 | the gate never changes any subject's acceptance |
| `InfoDoc.GateIdempotent` | main.py:106-141 | a second pass of the same message registers nothing more and gives the same chain |
| `InfoDoc.EulaChoice` | main.py:156-173 | the lower-cased argument selects accept when it is `true`, decline when it is `false`, and nothing otherwise |
| `InfoDoc.EulaChoiceTrue` | main.py:156-158 | the argument selects "true" exactly when it is `true` in some mix of letter cases |
| `InfoDoc.EulaChoiceFalse` | main.py:156-173 | the argument selects "false" exactly when it is `false` in some mix of letter cases |
| `InfoDoc.EulaStatus` | main.py:158-187 | an `eula` command adds at most the subject's key and leaves every other entry unchanged |
| `InfoDoc.EulaReplies` | main.py:158-189 | an `eula` command yields exactly one message |
| `InfoDoc.EulaSetsVerdict` | main.py:156-189 | a valid argument leaves the subject known with exactly the chosen verdict and one matching confirmation; an invalid one changes nothing and yields only the parameter error |
| `InfoDoc.GroupCommandKeepsPrivateVerdicts` | main.py:158-185 | a group `eula` command does not change the verdict of a private user whose id does not start with `group_` |
| `InfoDoc.GroupLastWriteWins` | main.py:158-185 | after any series of `eula` commands from any members of a group, every member sees the last valid choice, or the earlier verdict if there was none |
| `InfoDoc.Keywords` | main.py:198 | the keyword list has one entry per configured link, in order |
| `InfoDoc.FindLink` | main.py:207 | a keyword is found if and only if it is configured |
| `InfoDoc.FindLinkExact` | main.py:207-208 | with distinct keywords, a configured keyword is found with its own URL |
| `InfoDoc.HandleInfo` | main.py:196-214 | the `info` command yields exactly one message |
| `InfoDoc.InfoListsKeywords` | main.py:196-204 | with no keyword, the reply is the empty-table message for an empty table and otherwise a keyword listing, for every table; when no keyword contains `、`, that listing splits back into exactly the configured keywords in order |
| `InfoDoc.InfoFindsUrl` | main.py:206-209 | a configured non-empty keyword yields exactly its URL |
| `InfoDoc.InfoReportsUnknown` | main.py:211-214 | any other keyword yields the not-found error naming it, for every table; the listing is empty for an empty table, and when no keyword contains `、` it names exactly the configured keywords |
| `Strings.Lower` | main.py:156 | lower-casing keeps the length and lowers each character |
| `Strings.Join` | main.py:200 | a join of no words is empty; otherwise it starts with the first word, ends with the last, and its length is the words' total plus one separator between each pair (also at main.py:213) |
| `Strings.SplitJoin` | main.py:200 | the `、`-joined listing of keywords without `、` splits back into the same list |
| `InfoDoc.StoredAfterWrite` | main.py:66-72 | after a write, storage holds the written map exactly when the write completed (or a failed open left it holding that map); otherwise it holds the earlier content or nothing known |
| `InfoDoc.InfoDocPlugin.constructor` | main.py:16-17 | the plugin starts with the loaded links, which have distinct keywords, the loaded dictionary, and the file content as a separate input |
| `InfoDoc.InfoDocPlugin.SaveUserEulaStatus` | main.py:66-72 | storage afterwards is the whole dictionary when the write completes, unchanged when the open fails, and unknown when the dump fails |
| `InfoDoc.InfoDocPlugin.Info` | main.py:191-214 | the plugin's `info` command yields exactly one message |
| `InfoDoc.PluginInfoFindsUrl` | main.py:206-209 | a constructed plugin answers every configured non-empty keyword with exactly its URL |
| `InfoDoc.InfoDocPlugin.OnDecoratingResult` | main.py:94-145 | the new chain and dictionary are the gate's; storage is written exactly when a first contact is registered, with that write's outcome |
| `InfoDoc.InfoDocPlugin.HandleEula` | main.py:147-189 | the replies and dictionary are the command's; storage is written after every valid argument, with that write's outcome |

## Left out

- Start-up loading (`initialize`, `ensure_data_files_exist`, `load_config_files`) and the paths of the data files: file and YAML I/O. The constructor takes the loaded link table, the loaded dictionary and the file content instead.
- InfoDoc.InfoDocPlugin.constructor: does not relate the loaded dictionary to the file content. A syntax error in the link file (main.py:50), or an empty or non-mapping document (main.py:51), raises. The handler at main.py:63 then skips loading the consent file (main.py:56-59). The dictionary starts empty while the file still holds the stored consents, and the first write replaces them.
- The YAML encoding inside `save_user_eula_status`: how the write ends is the `outcome` input, and what the file holds is the ghost field `stored`. After a failed dump the model records nothing about the leftover bytes (`None`).
- The host framework: command registration and parsing, the event accessors, `plain_result`, `Plain`, and a missing result object. The sender id, the optional group id, the message text and the argument are plain inputs.
- `async` and generators: each handler returns its finite sequence of messages.
- Logging: it has no effect on state.
- The exact wording of the messages and the sender-name interpolation: messages are told apart by kind and keep only their keyword and URL content.
- Group ids that are not strings, such as the number `0`: the group is an optional string, and an empty string counts as no group.
- `Strings.Lower`: lowers only ASCII letters, while Python's `str.lower` also maps other scripts. No non-ASCII character lowers to a letter of `true` or `false`, so both recognise the same arguments.
- Link keywords or URLs that are not strings: the link table holds strings only.
- Interleaving of handlers: none is modelled, because no handler suspends between reading the dictionary and writing it. `save_user_eula_status` has no `await` inside it (main.py:66-72), and `handle_eula` yields only after its write (main.py:162-164).
- InfoDoc.InfoListsKeywords and InfoDoc.InfoReportsUnknown: the listing is proved to name exactly the configured keywords only when no keyword contains `、`. Otherwise the joined text is ambiguous and cannot be split back.
