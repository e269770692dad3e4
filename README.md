# Firewall upgrade screens and websockets of the awx fork

This project models, in Dafny, the part of the awx fork that drives PAN-OS firewall upgrades from the AWX user interface:

- **The websocket consumers** of `awx/main/consumers.py`:
  - the shared-secret check between nodes (`WebsocketSecretAuthHelper`);
  - the browser's event socket with its CSRF check and channel-group subscriptions (`EventConsumer`);
  - the firewall update socket that walks addresses through `processing`, `installing` and `updated` (`UpdateFirewallsConsumer`).
- **The firewall status record** `UpdateFirewallStatus` (`awx/main/models/firewall.py`).
- **The inventory API decisions** of `awx/api/views/inventory.py`:
  - an inventory's `kind` cannot change on update;
  - a constructed inventory cannot feed another one;
  - the constructed-inventory list;
  - the firewall version update endpoint.
- **The data helpers of the React screens:**
  - the three firewall tree tables (`LegacyTableTree.js`, `LegacyTableTree1.js`, `LegacyTableTree2.js`): the tree helpers, row rendering, paging, the group mapping and the submit reducers;
  - the inventory host table (`InventoryTable.js`): row selection with shift-click ranges and the job launch;
  - the `ansible_host` extraction shared by all four;
  - the job screens `FirewallResult.js` (the update socket's client), `JobResult.js`, `FileModal.js` and `Filemodal.js`;
  - the initial values of `InventoryForm.js`.

JavaScript values are modelled by the `Json` datatype of module `Js` (`undefined`, `null`, booleans, integers, strings, arrays, objects with ordered keys). Each operation that can raise a `TypeError` returns a `Completion`, either `Normal(value)` or `Threw`. The module also defines:

- truthiness and loose equality;
- `||` and `&&`;
- property access, strict and optional;
- `for...in`, `slice`, `split`, `lastIndexOf`, `substring`, `parseInt` and `String(n)`.

The three tree screens share their helpers, with one difference: `LegacyTableTree1.js` and `LegacyTableTree2.js` build the `checkboxId` prop with `node.name.toLowerCase()`, and `LegacyTableTree.js` with `node?.name?.toLowerCase()`. The helpers are defined once, in `TreeTable` (tree helpers, rows, paging) and `TreeSubmit` (the two `handleSubmit` reducers). The difference is the `optional` parameter of `TreeTable.RenderChecked`. Each screen's own module holds its group mapping and its submit payload.

Stateful code is modelled as classes whose fields the methods update:

- the React components' state hooks: `InventoryTable.Table`, `FileModals.BackupModal`, `FirewallResult.ResultPage`;
- the consumers' session and channel layer: `EventGroups.EventConsumer`, `UpdateFirewalls.UpdateFirewallsConsumer`.

Loops become methods proved against specification functions, for example:

- `AnsibleHosts.ExtractHosts`, `TreeSubmit.SelectRows`, `TreeSubmit.MergeRows`;
- `InventoryTable.SelectRange`, `JobResult.ApplyEvents`;
- `EventGroups.ScanEntries`, `SecretAuth.IsAuthorized`.

HMAC, `json.dumps`, the clock and the permission check are parameters.

## Model

| member | source | states |
|---|---|---|
| SecretAuth.ParseFormat | awx/main/consumers.py:39-47 | a secret formatted as `HMAC-SHA256 <nonce>:<digest>` parses back into the same nonce and digest when neither holds a space or colon |
| SecretAuth.ParseExactly | awx/main/consumers.py:43-49 | parsing succeeds iff the text is exactly the scheme, one space, a nonce, one colon and a digest, with no further separators |
| SecretAuth.ParseFailureExactly | awx/main/consumers.py:43-49 | "Failed to parse secret" is raised iff the text is not of that form (a wrong scheme included) |
| SecretAuth.DigestBeforeNonce | awx/main/consumers.py:60-67 | a wrong digest is refused as an invalid secret whatever the nonce and the clock say |
| SecretAuth.ToleranceWindow | awx/main/consumers.py:66-73 | with the right digest and an integer nonce, the secret is accepted iff the clocks differ by at most the tolerance, else refused as replay/skew with the signed difference |
| SecretAuth.AcceptedMeans | awx/main/consumers.py:42-73 | acceptance means the text is exactly the secret the server would build for some integer nonce within the tolerance |
| SecretAuth.PyIntDecimal | awx/main/consumers.py:67 | `int()` reads back the decimal text of every integer |
| SecretAuth.ConstructVerify | awx/main/consumers.py:32-73 | a secret built at time t is accepted at time now iff abs(now - t) <= 300, otherwise refused as replay/skew |
| SecretAuth.IsAuthorized | awx/main/consumers.py:76-82 | the value of the first `secret` header (or `''` without one) is what is verified, with the default tolerance |
| SecretAuth.NoHeaderFailsToParse | awx/main/consumers.py:77-82 | without a `secret` header the check fails at parsing |
| EventGroups.Stop | awx/main/consumers.py:178-192 | the index of the first group value that is not a list: every earlier value is a list |
| EventGroups.GrantedIdsMembership | awx/main/consumers.py:180-188 | a channel name `group-oid` is added iff some listed id produces it and the user may see that id (or the group has no access class) |
| EventGroups.GrantedMembership | awx/main/consumers.py:174-188 | over all entries, a channel is subscribed iff some entry's listed id names it and is permitted |
| EventGroups.RefusedIdsAreRefusals | awx/main/consumers.py:183-187 | each error sent is for a refused id, in the order of the ids |
| EventGroups.RefusedIdsCount | awx/main/consumers.py:180-188 | at most one error per id, and none iff every id is permitted |
| EventGroups.ScanIds | awx/main/consumers.py:180-188 | the inner loop's new groups and error replies equal the specification functions |
| EventGroups.ScanEntries | awx/main/consumers.py:178-192 | the outer loop stops at the first non-list value and has collected exactly the groups and errors of the entries before it |
| EventGroups.EventConsumer.Connect | awx/main/consumers.py:122-138 | an authenticated user is accepted and the cookie's CSRF token stored when present; otherwise a close message is sent and the socket closed |
| EventGroups.EventConsumer.Disconnect | awx/main/consumers.py:140-151 | every group the session records is left, the session's groups are removed, and the unsubscribe is broadcast |
| EventGroups.EventConsumer.ReceiveJson | awx/main/consumers.py:164-216 | a missing or wrong xrftoken gets an error and changes nothing; a `groups` value that is not an object (a list, `null`, a string) raises after the session's groups are taken out, sending nothing; a non-list value inside the object gets an error after the earlier errors and leaves the session without groups; otherwise the layer leaves old groups, joins new ones, broadcasts, stores the new groups and reports current/left/joined |
| EventGroups.EventConsumer.Resubscribe | awx/main/consumers.py:173-216 | with an accepted token and a `groups` object: the session's groups are taken out; a non-list value ends the call after its error; otherwise the socket moves from the old groups to the permitted new ones, and the session invariant is kept |
| EventGroups.EventConsumer.Move | awx/main/consumers.py:194-216 | the socket leaves current minus new, joins new minus current, the unsubscribe is broadcast only when something was left, the subscribe always, and the reply lists current/left/joined after the earlier errors |
| UpdateFirewalls.Sent | awx/main/consumers.py:255-263 | three tables are sent per address |
| UpdateFirewalls.SentAt | awx/main/consumers.py:255-263 | table number 3k+p is the one for address k in phase p (processing, installing, updated) |
| UpdateFirewalls.PhaseAt | awx/main/consumers.py:255-263 | the three tables of an address show it one phase further along each time |
| UpdateFirewalls.SnapshotReads | awx/main/consumers.py:251-263 | in address k's table, that address shows the phase, earlier ones `updated`, later ones `waiting` |
| UpdateFirewalls.SnapshotOfDistinct | awx/main/consumers.py:251-263 | with distinct addresses, address m's status in address k's table is fixed by comparing m with k |
| UpdateFirewalls.StatusOverTime | awx/main/consumers.py:251-263 | with distinct addresses, each address is `waiting`, then goes through the three phases, then stays `updated` |
| UpdateFirewalls.NeverBack | awx/main/consumers.py:251-263 | with distinct addresses no status ever moves backwards from one table to a later one |
| UpdateFirewalls.RepeatedAddressRestarts | awx/main/consumers.py:252-263 | a repeated address goes from `updated` back to `processing` |
| UpdateFirewalls.AllUpdatedAtEnd | awx/main/consumers.py:255-263 | the last table holds exactly the listed addresses, all `updated` |
| UpdateFirewalls.RecordedRows | awx/main/consumers.py:265-275 | after `receive` every listed address has one `updated` row under job 97 and every other row is untouched |
| UpdateFirewalls.InitialStatusLastWins | awx/main/consumers.py:238-242 | in the initial table an address shows the status of its last row |
| UpdateFirewalls.InitialStatusKeys | awx/main/consumers.py:241 | the initial table's keys are exactly the rows' addresses |
| UpdateFirewalls.InitialStatusOfStore | awx/main/consumers.py:238-242 | for any listing of the status records of a consistent store, the initial table's keys are exactly the store's addresses |
| UpdateFirewalls.WaitingStep | awx/main/consumers.py:252-253 | the first loop marks every address `waiting`, one address per step |
| UpdateFirewalls.RoundStep | awx/main/consumers.py:255-263 | setting the address to `processing`, `installing` and `updated` in turn gives exactly the three tables `Sent` lists for it, and the last is the table with one more address done |
| UpdateFirewalls.WaitingTable | awx/main/consumers.py:251-253 | the first loop leaves every listed address, and only those, `waiting` |
| UpdateFirewalls.UpdateFirewallsConsumer.Round | awx/main/consumers.py:255-275 | one round sends address k's three tables in phase order and records the address; the table ends with one more address `updated` |
| UpdateFirewalls.UpdateFirewallsConsumer.Connect | awx/main/consumers.py:223-242 | the socket is accepted and no table is sent; under Django's async-safety check the query of `send_initial_status` raises `SynchronousOnlyOperation` first, and with the check off awaiting the method's `None` raises `TypeError` |
| UpdateFirewalls.UpdateFirewallsConsumer.Receive | awx/main/consumers.py:247-275 | with the async-safety check off, the outbox grows by exactly `Sent(ips)` and the store becomes the store with every address recorded, keeping it consistent; under the check, a non-empty list raises at the first `get_or_create` after the first address's three tables, and the store is unchanged |
| UpdateFirewalls.UpdateFirewallsConsumer.Rounds | awx/main/consumers.py:255-275 | when every `get_or_create` succeeds, the loop sends `Sent(ips)` and records every address |
| UpdateFirewalls.UpdateFirewallsConsumer.SendRound | awx/main/consumers.py:256-264 | address k's three tables go out in phase order and the table ends with one more address `updated`; the store is untouched |
| FirewallStatus.Name | awx/main/models/firewall.py:7-26 | each status choice is stored as a non-empty name within the column's 24 characters |
| FirewallStatus.ParseStatus | awx/main/models/firewall.py:22-25 | a stored value is a valid status iff it is one of the four choices |
| FirewallStatus.ParseName | awx/main/models/firewall.py:7-12 | every choice reads back as itself |
| FirewallStatus.NameInjective | awx/main/models/firewall.py:7-12 | two choices store the same value iff they are the same choice |
| FirewallStatus.NameParse | awx/main/models/firewall.py:7-12 | a stored value that reads back as a choice is that choice's name |
| FirewallStatus.NewRecord | awx/main/models/firewall.py:14-26 | a row created with only its address has no job id, no group name and status `waiting`, and is valid when the address is 1 to 256 characters long |
| InventoryViews.RequestedKind | awx/api/views/inventory.py:93 | the body's kind when truthy, else the URL's kind |
| InventoryViews.UpdateRefusedExactly | awx/api/views/inventory.py:91-100 | the update is refused with 405 iff a kind is requested and differs from the stored one |
| InventoryViews.BodyKindDecides | awx/api/views/inventory.py:93-100 | a non-empty kind in the body decides whatever the URL says |
| InventoryViews.EmptyBodyKindDefers | awx/api/views/inventory.py:93-100 | an empty or absent body kind defers to the URL; with neither the update goes through |
| InventoryViews.IsValidRelation | awx/api/views/inventory.py:132-134 | a sub-inventory is refused iff it is constructed |
| InventoryViews.ConstructedOnlyExactly | awx/api/views/inventory.py:121-123 | the list holds exactly the constructed inventories and no more rows than the full list |
| InventoryViews.ConstructedOnlyAppend | awx/api/views/inventory.py:121-123 | the filter keeps the relative order (it distributes over concatenation) |
| InventoryViews.ProcessIp | awx/api/views/inventory.py:363-371 | `process_ip` never reports `waiting` |
| InventoryViews.ProcessIpExactly | awx/api/views/inventory.py:363-371 | `processing` iff the first step succeeded, `installing` iff only the second did, `updated` iff neither did |
| InventoryViews.Post | awx/api/views/inventory.py:356-376 | a response iff the serializer accepts; then its keys are exactly the addresses, each `processing` |
| TreeTable.Descendants | awx/ui/src/screens/Firewalls/LegacyTableTree.js:838-848 | at least one node, all childless, and a childless node stands for itself |
| TreeTable.DescendantsOf | awx/ui/src/screens/Firewalls/LegacyTableTree.js:842-845 | at least one childless node per listed node |
| TreeTable.DescendantsAreLeaves | awx/ui/src/screens/Firewalls/LegacyTableTree.js:838-848 | a node is among the descendants iff it is a childless node reachable from the node |
| TreeTable.DescendantsOfAreLeaves | awx/ui/src/screens/Firewalls/LegacyTableTree.js:838-848 | the same for a list of nodes |
| TreeTable.NodeCheckedExactly | awx/ui/src/screens/Firewalls/LegacyTableTree.js:850-864 | checked iff every leaf below is selected, unchecked iff none is, indeterminate iff some but not all are |
| TreeTable.Without | awx/ui/src/screens/Firewalls/LegacyTableTree.js:908-910 | the filter keeps exactly the values not dropped |
| TreeTable.WithoutAppend | awx/ui/src/screens/Firewalls/LegacyTableTree.js:908-910 | the filter keeps relative order |
| TreeTable.CheckChangeDecides | awx/ui/src/screens/Firewalls/LegacyTableTree.js:905-915 | checking a node leaves it checked, unchecking leaves it unchecked |
| TreeTable.CheckChangeKeepsOthers | awx/ui/src/screens/Firewalls/LegacyTableTree.js:905-915 | names outside the subtree keep their membership and order; when checking, every leaf name of the subtree is selected exactly once |
| TreeTable.CheckChangeLeavesOthers | awx/ui/src/screens/Firewalls/LegacyTableTree.js:905-915 | a node sharing no leaf name with the changed subtree keeps its check state |
| TreeTable.CollapseToggles | awx/ui/src/screens/Firewalls/LegacyTableTree.js:891-895 | a node becomes the expanded one iff it was not; no other node becomes expanded |
| TreeTable.OtherEntries | awx/ui/src/screens/Firewalls/LegacyTableTree.js:898-900 | the node's name is removed and every other entry keeps its membership |
| TreeTable.AsWrittenNeverExpands | awx/ui/src/screens/Firewalls/LegacyTableTree.js:896-904 | as written, the toggle appends the node object and never the name, so details never show as expanded |
| TreeTable.OtherEntriesKeepsNodes | awx/ui/src/screens/Firewalls/LegacyTableTree.js:898-900 | filtering by name never removes a node object |
| TreeTable.ToggleTwiceAsWritten | awx/ui/src/screens/Firewalls/LegacyTableTree.js:896-904 | toggling twice as written leaves two copies of the node object |
| TreeTable.ToggleDetails | awx/ui/src/screens/Firewalls/LegacyTableTree.js:896-904 | the intended toggle: the name is in the result iff it was not before; other names unchanged |
| TreeTable.ToggleDetailsTwice | awx/ui/src/screens/Firewalls/LegacyTableTree.js:896-904 | opening and closing the details of a node restores the list |
| TreeTable.RenderRows | awx/ui/src/screens/Firewalls/LegacyTableTree.js:867-997 | one row per node of the forest |
| TreeTable.RowOf | awx/ui/src/screens/Firewalls/LegacyTableTree.js:876-929 | a row carries its node's name, level, position, row index and hidden flag |
| TreeTable.RowNumbering | awx/ui/src/screens/Firewalls/LegacyTableTree.js:867-997 | rows are numbered consecutively; none is above the starting level; rows hidden at the start stay hidden |
| TreeTable.RowsInPreOrder | awx/ui/src/screens/Firewalls/LegacyTableTree.js:867-997 | the rows list the nodes in pre-order |
| TreeTable.RenderChecked | awx/ui/src/screens/Firewalls/LegacyTableTree.js:867-997 | rendering throws iff some node of the forest, at any depth, has a name `checkboxId` cannot be built from (not a string, or also missing in the screens without `?.`); otherwise it gives the rows of `RenderRows` |
| TreeTable.NameKindsRender | awx/ui/src/screens/Firewalls/LegacyTableTree.js:925-927 | a node without a name renders with `?.` and throws without it; a node named by a number throws either way |
| TreeTable.SiblingRows | awx/ui/src/screens/Firewalls/LegacyTableTree.js:932-996 | a node's row comes first, then its subtree's rows one level down, hidden unless it is expanded, then its siblings' rows at the next position |
| TreeTable.Page | awx/ui/src/screens/Firewalls/LegacyTableTree.js:1018 | a page holds at most 10 items |
| TreeTable.PageContents | awx/ui/src/screens/Firewalls/LegacyTableTree.js:670-671 | page p holds items (p-1)*10 up to p*10, cut at the end of the data, and is empty past it |
| TreeTable.ItemOnItsPage | awx/ui/src/screens/Firewalls/LegacyTableTree.js:670-671 | item i is on page i/10+1 at position i%10 |
| TreeSubmit.PayloadsOf | awx/ui/src/screens/Firewalls/LegacyTableTree.js:1060-1064 | no more payloads than children |
| TreeSubmit.PayloadsOfExtremes | awx/ui/src/screens/Firewalls/LegacyTableTree.js:1060-1064 | every child selected gives every payload in order; none selected gives none |
| TreeSubmit.OneRows | awx/ui/src/screens/Firewalls/LegacyTableTree.js:1078-1083 | one row per selected child |
| TreeSubmit.OnlyOnesOfOneRows | awx/ui/src/screens/Firewalls/LegacyTableTree.js:1078-1083 | those rows all hold a single child |
| TreeSubmit.OneRowsShape | awx/ui/src/screens/Firewalls/LegacyTableTree.js:1078-1083 | row k is the parent with child k |
| TreeSubmit.OnlyOnesReplaceMany | awx/ui/src/screens/Firewalls/LegacyTableTree.js:1071-1072 | extending a group row leaves the single rows as they were |
| TreeSubmit.FindParent | awx/ui/src/screens/Firewalls/LegacyTableTree.js:1067-1089 | the index of an accumulated row with that parent, or none exists; both reducers search with it |
| TreeSubmit.StepExisting | awx/ui/src/screens/Firewalls/LegacyTableTree.js:1066-1072 | a selected group whose name already has a row extends that row and keeps the invariant |
| TreeSubmit.StepNew | awx/ui/src/screens/Firewalls/LegacyTableTree.js:1066-1076 | a selected group without a row starts one and keeps the invariant |
| TreeSubmit.StepSingles | awx/ui/src/screens/Firewalls/LegacyTableTree.js:1077-1084 | an unselected group adds one row per selected child and keeps the invariant |
| TreeSubmit.AddGroup | awx/ui/src/screens/Firewalls/LegacyTableTree.js:1055-1087 | one call of the reducer's callback keeps the invariant of the selected rows for one more group |
| TreeSubmit.SelectRows | awx/ui/src/screens/Firewalls/LegacyTableTree.js:1055-1087 | group rows are for selected names, one per name, each collecting the selected children of every group of that name; every selected group of `data` has a row, every group row names a group of `data`, and the group rows follow the first appearance of their names; single rows are exactly the selected children of unselected groups, in order |
| TreeSubmit.ReduceGroups | awx/ui/src/screens/Firewalls/LegacyTableTree.js:1055-1087 | the `reduce` loop keeps the invariant of the rows built so far, group order included |
| TreeSubmit.GroupRowsFromData | awx/ui/src/screens/Firewalls/LegacyTableTree.js:1056-1058 | a group row exists only for a name some group of `data` carries |
| TreeSubmit.MergeExisting | awx/ui/src/screens/Firewalls/LegacyTableTree.js:1091-1096 | a row under a known parent appends its child to that entry and keeps the invariant |
| TreeSubmit.MergeNew | awx/ui/src/screens/Firewalls/LegacyTableTree.js:1097-1098 | a row under a new parent adds an entry and keeps the invariant |
| TreeSubmit.MergeRows | awx/ui/src/screens/Firewalls/LegacyTableTree.js:1088-1102 | one entry per distinct parent in order of first appearance, each holding the `child` values of all rows under it, in order |
| TreeSubmit.MergedParentsDistinct | awx/ui/src/screens/Firewalls/LegacyTableTree.js:1088-1102 | the merged parents are distinct and are exactly the rows' parents |
| TreeSubmit.ChildValues | awx/ui/src/screens/Firewalls/LegacyTableTree.js:1103 | the payload lists each row's child, in order |
| LegacyTableTree.GroupNameOfString | awx/ui/src/screens/Firewalls/LegacyTableTree.js:1012 | only the empty group name becomes `No Device Group` |
| LegacyTableTree.GroupNameOfOthers | awx/ui/src/screens/Firewalls/LegacyTableTree.js:1012 | loose equality also renames a group named `0`, `false`, `[]`, `[null]` or `['']`; `[null, null]` and `['', '']` (which join to `,`), `null` and `undefined` are kept |
| LegacyTableTree.OtherSpellingsOfOneConnect | awx/ui/src/screens/Firewalls/LegacyTableTree.js:1005 | serials `1.0` and `0x1` convert to 1 and show `Connected` |
| LegacyTableTree.SerialNumbersShowDisconnected | awx/ui/src/screens/Firewalls/LegacyTableTree.js:1005 | a serial of two or more digits is shown `Disconnected` |
| LegacyTableTree.Firewall | awx/ui/src/screens/Firewalls/LegacyTableTree.js:1001-1010 | a firewall row throws iff its HA state path is missing; otherwise it is a leaf named by `devicename` |
| LegacyTableTree.FirewallFields | awx/ui/src/screens/Firewalls/LegacyTableTree.js:1001-1010 | the row's address and version are the firewall's `ip-address` and `sw-version` |
| LegacyTableTree.Group | awx/ui/src/screens/Firewalls/LegacyTableTree.js:1000-1015 | a nullish group throws; a group is named by `GroupName` and has no children without firewalls |
| LegacyTableTree.GroupOfFirewalls | awx/ui/src/screens/Firewalls/LegacyTableTree.js:1000-1015 | a group with well-formed firewalls is a folder with one row per firewall, in order |
| LegacyTableTree.HandleSubmit | awx/ui/src/screens/Firewalls/LegacyTableTree.js:1054-1111 | each selected group gets exactly one row, in the order of first appearance, holding the selected children of every group of that name, and no other group rows exist; the other rows are the selected children of unselected groups; the merged rows and a launch payload listing each row's child with the chosen version |
| LegacyTableTree1.Device | awx/ui/src/screens/Firewalls/LegacyTableTree1.js:2978-2980 | a device throws iff nullish, otherwise it is a leaf named by `@name` |
| LegacyTableTree1.GroupWithoutEntry | awx/ui/src/screens/Firewalls/LegacyTableTree1.js:2977-2982 | a group without `devices.entry` is a leaf that stands for itself |
| LegacyTableTree1.GroupWithEntries | awx/ui/src/screens/Firewalls/LegacyTableTree1.js:2977-2982 | a group with a device list is a folder with one child per device, in order |
| LegacyTableTree1.SingleEntryObjectThrows | awx/ui/src/screens/Firewalls/LegacyTableTree1.js:2978 | a single device given as an object, not a list, throws |
| LegacyTableTree1.UnnamedGroupThrows | awx/ui/src/screens/Firewalls/LegacyTableTree1.js:2941-2943 | a group without `@name` keeps the missing name, and rendering it throws |
| LegacyTableTree1.HandleSubmit | awx/ui/src/screens/Firewalls/LegacyTableTree1.js:3027-3084 | each selected group gets exactly one row of selected device names, in the order of first appearance, and no other group rows exist; the other rows are single names under unselected groups; merged per parent, with the credentials (the submit of LegacyTableTree2.js, lines 429-486, is the same code) |
| LegacyTableTree2.Device | awx/ui/src/screens/Firewalls/LegacyTableTree2.js:372-378 | a device throws iff nullish, otherwise it is a leaf named by `device_name` |
| LegacyTableTree2.Group | awx/ui/src/screens/Firewalls/LegacyTableTree2.js:371-383 | a nullish group throws; a group is named by `GroupName` |
| LegacyTableTree2.UnnamedGroup | awx/ui/src/screens/Firewalls/LegacyTableTree2.js:371-383 | an unnamed group with devices becomes `No Device Group` with one child per device |
| AnsibleHosts.HostAddress | awx/ui/src/screens/Firewalls/LegacyTableTree.js:740 | reading the address throws iff the access is strict and the host is nullish |
| AnsibleHosts.HostsOf | awx/ui/src/screens/Firewalls/LegacyTableTree.js:739-745 | only truthy addresses are collected, at most one per host |
| AnsibleHosts.CollectHosts | awx/ui/src/screens/Firewalls/LegacyTableTree.js:739-745 | the inner `for...in` loop over one group's hosts computes `HostsOf` |
| AnsibleHosts.GroupsHosts | awx/ui/src/screens/Firewalls/LegacyTableTree.js:735-746 | every collected address is truthy |
| AnsibleHosts.GroupsThrewSticks | awx/ui/src/screens/Firewalls/LegacyTableTree.js:735-746 | a throw in some group makes the whole extraction throw |
| AnsibleHosts.HostsThrewSticks | awx/ui/src/screens/Firewalls/LegacyTableTree.js:739-745 | the same within one group's hosts |
| AnsibleHosts.OptionalThrowsOnlyOnNullGroup | awx/ui/src/screens/Firewalls/LegacyTableTree.js:735-746 | with `?.` access the extraction throws iff some group is nullish |
| AnsibleHosts.OptionalHostsNeverThrow | awx/ui/src/screens/Firewalls/LegacyTableTree.js:739-745 | with `?.` access the hosts of a group never throw |
| AnsibleHosts.StrictThrowsOnNullHost | awx/ui/src/screens/Firewalls/InventoryTable.js:113-118 | with strict access a `null` host throws |
| AnsibleHosts.ExtractHosts | awx/ui/src/screens/Firewalls/LegacyTableTree.js:726-747 | the nested `for...in` loops compute the specification over the group object at `all.children.panoramas.children`; the same loops sit in LegacyTableTree1.js (2769-2790) and LegacyTableTree2.js (163-184), and in InventoryTable.js (100-120) with the strict path under `all.children.firewalls.children.fw_dev.children` |
| InventoryTable.SetRepoSelected | awx/ui/src/screens/Firewalls/InventoryTable.js:271-277 | the host is in the result iff selecting; every other host keeps its membership; a selected host is last; the list grows by at most one |
| InventoryTable.WithoutKeepsDistinct | awx/ui/src/screens/Firewalls/InventoryTable.js:273 | filtering keeps a list free of repeats |
| InventoryTable.SetRepoSelectedKeepsDistinct | awx/ui/src/screens/Firewalls/InventoryTable.js:271-277 | selecting or deselecting keeps the selection free of repeats |
| InventoryTable.SetRepoSelectedIdempotent | awx/ui/src/screens/Firewalls/InventoryTable.js:271-277 | selecting (or deselecting) the same host twice is the same as once |
| InventoryTable.Between | awx/ui/src/screens/Firewalls/InventoryTable.js:287-297 | the indexes from the lower to the higher of the two rows, inclusive, consecutive |
| InventoryTable.SelectIndexes | awx/ui/src/screens/Firewalls/InventoryTable.js:298-300 | each host at one of the indexes is selected iff selecting; any other change concerns such a host |
| InventoryTable.SelectRange | awx/ui/src/screens/Firewalls/InventoryTable.js:298-300 | the `forEach` loop computes `SelectIndexes` |
| InventoryTable.SelectAllReposChecksHeader | awx/ui/src/screens/Firewalls/InventoryTable.js:278-280 | after selecting all, every host counts as selected |
| InventoryTable.StaleSelectionAsWritten | awx/ui/src/screens/Firewalls/InventoryTable.js:280 | the length test reports all selected for a selection of another host |
| InventoryTable.DuplicateHostAsWritten | awx/ui/src/screens/Firewalls/InventoryTable.js:280 | with a repeated host every row is selected yet the length test says not all |
| InventoryTable.DistinctCard | awx/ui/src/screens/Firewalls/InventoryTable.js:280 | a list without repeats has as many elements as its set |
| InventoryTable.LengthTestSoundForDistinctSubsets | awx/ui/src/screens/Firewalls/InventoryTable.js:280 | for a repeat-free selection drawn from repeat-free hosts, the length test agrees with "every host selected" |
| InventoryTable.HandleSubmit | awx/ui/src/screens/Firewalls/InventoryTable.js:233-269 | a launch iff inventory, version and at least one host are given; otherwise the alert for the first missing one in the order inventory, version, host |
| InventoryTable.LaunchBody | awx/ui/src/screens/Firewalls/InventoryTable.js:236-247 | the request carries the hosts and version under `extra_vars.extra_vars` and empty credential passwords |
| InventoryTable.Table.constructor | awx/ui/src/screens/Firewalls/InventoryTable.js:35-47 | the hooks start empty, `null` or false |
| InventoryTable.Table.OnSelect | awx/ui/src/screens/Firewalls/InventoryTable.js:212-223 | the chosen inventory or version is stored and nothing else changes |
| InventoryTable.Table.Submit | awx/ui/src/screens/Firewalls/InventoryTable.js:233-269 | appends the launch or the alert `HandleSubmit` decides and ends with the spinner off |
| InventoryTable.Table.SetHosts | awx/ui/src/screens/Firewalls/InventoryTable.js:140 | the host list is replaced by the `hostVersions` list, or by `[]` when the inventory has no variables (line 189) |
| InventoryTable.Table.OnKey | awx/ui/src/screens/Firewalls/InventoryTable.js:306-318 | the Shift key sets or clears `shifting`; other keys change nothing |
| InventoryTable.Table.SelectAllRepos | awx/ui/src/screens/Firewalls/InventoryTable.js:278-280 | every host or none is selected, and the header reads as the new selection says |
| InventoryTable.Table.OnSelectRepo | awx/ui/src/screens/Firewalls/InventoryTable.js:285-305 | a shift-click after a click sets every row between the two; otherwise only the clicked host changes; the clicked row is remembered |
| InventoryTable.ShiftClickRange | awx/ui/src/screens/Firewalls/InventoryTable.js:285-305 | with repeat-free hosts, the hosts between the two rows take the new state and all others keep theirs |
| FirewallResult.SplitFirstPart | awx/ui/src/screens/Job/FirewallResult.js:36-37 | the first part of a split is a prefix without the separator |
| FirewallResult.SplitLastPart | awx/ui/src/screens/Job/FirewallResult.js:34-35 | the last part of a split is the text after the last occurrence, or the whole text without one |
| FirewallResult.LastAt | awx/ui/src/screens/Job/FirewallResult.js:34-35 | the last occurrence before a position, or none exists |
| FirewallResult.UpTo | awx/ui/src/screens/Job/FirewallResult.js:36-37 | the text before the first `;` |
| FirewallResult.CsrfToken | awx/ui/src/screens/Job/FirewallResult.js:33-37 | the token never contains `;` |
| FirewallResult.CsrfTokenAbsent | awx/ui/src/screens/Job/FirewallResult.js:33-37 | without a `csrftoken` cookie the token is empty |
| FirewallResult.SeparatorsDoNotOverlap | awx/ui/src/screens/Job/FirewallResult.js:34 | two occurrences of `; csrftoken=` cannot overlap |
| FirewallResult.CsrfTokenIsLastValue | awx/ui/src/screens/Job/FirewallResult.js:33-37 | the token is the value of the last `csrftoken` cookie, up to the next `;` |
| FirewallResult.UpToUnique | awx/ui/src/screens/Job/FirewallResult.js:36-37 | the text before the first `;` is the only prefix that stops there |
| FirewallResult.CsrfTokenOfSingleCookie | awx/ui/src/screens/Job/FirewallResult.js:33-37 | a page whose only cookie is `csrftoken=t` reads `t` |
| FirewallResult.StatusOf | awx/ui/src/screens/Job/FirewallResult.js:51-57 | a row throws iff the message is nullish, and carries its address |
| FirewallResult.ProjectRows | awx/ui/src/screens/Job/FirewallResult.js:49-57 | a message yields one row per address, in order, with the message's status for that address (`undefined` when absent) |
| FirewallResult.NullMessageThrows | awx/ui/src/screens/Job/FirewallResult.js:54 | a `null` message throws once there is an address to look up |
| FirewallResult.OpenRequest | awx/ui/src/screens/Job/FirewallResult.js:38-42 | the request holds only `ip_addresses`, the page's address list |
| FirewallResult.ReconnectAfter | awx/ui/src/screens/Job/FirewallResult.js:70-78 | a reconnect is scheduled iff the close code is not 1000, after 1000 ms |
| FirewallResult.ResultPage.constructor | awx/ui/src/screens/Job/FirewallResult.js:25-30 | a socket is created only when there is location state |
| FirewallResult.ResultPage.Connect | awx/ui/src/screens/Job/FirewallResult.js:32-43 | the request goes out only when the current socket is open |
| FirewallResult.ResultPage.OnOpen | awx/ui/src/screens/Job/FirewallResult.js:44 | the socket opens and the request is delivered |
| FirewallResult.ResultPage.OnMessage | awx/ui/src/screens/Job/FirewallResult.js:46-68 | the rows become the message's projection, or stay when it throws |
| FirewallResult.ResultPage.OnClose | awx/ui/src/screens/Job/FirewallResult.js:70-78 | the socket closes and a timer is added iff the code is abnormal |
| FirewallResult.ResultPage.OnTimerAsWritten | awx/ui/src/screens/Job/FirewallResult.js:74-76 | as written, the timer calls `connect` on the closed socket, and nothing is delivered |
| FirewallResult.ResultPage.OnTimer | awx/ui/src/screens/Job/FirewallResult.js:74-76 | the intended reconnect opens a new socket |
| FirewallResult.ReconnectAsWritten | awx/ui/src/screens/Job/FirewallResult.js:70-78 | after an abnormal close and the timer, no socket is open and only the first request was ever delivered |
| FirewallResult.ReconnectIntended | awx/ui/src/screens/Job/FirewallResult.js:70-78 | with the intended reconnect a socket is open again and the request is delivered twice |
| FileModals.RequestsCarryTheJob | awx/ui/src/screens/Job/FileModal.js:53-57 | a job id given as a number or as its decimal text reaches the server as that integer, and the archive request names the second file |
| FileModals.LetterIsNaN | awx/ui/src/screens/Job/FileModal.js:71 | text starting with a letter is NaN to `parseInt` |
| FileModals.MissingJobIdIsNaN | awx/ui/src/screens/Job/FileModal.js:71 | a missing job id is sent as NaN |
| FileModals.Trim | awx/ui/src/screens/Job/FileModal.js:75-76 | `slice(2, -1)` drops two characters in front and one at the end, or gives nothing for text shorter than three |
| FileModals.TrimUnwraps | awx/ui/src/screens/Job/FileModal.js:75-76 | trimming removes the stored `b'...'` wrapper |
| FileModals.ElementAt | awx/ui/src/screens/Job/FileModal.js:75 | indexing throws iff the value is nullish; arrays give the element or `undefined` |
| FileModals.FileAt | awx/ui/src/screens/Job/FileModal.js:75-83 | no answer gives an empty file; an answer without `data` throws |
| FileModals.GetXml | awx/ui/src/screens/Job/FileModal.js:68-89 | both files are read iff neither read throws |
| FileModals.EntryFields | awx/ui/src/screens/Job/FileModal.js:75-83 | a stored entry's name and wrapped content are what the modal reads |
| FileModals.GetXmlOfBackup | awx/ui/src/screens/Job/FileModal.js:68-89 | an answer with the XML file and the archive yields both, unwrapped |
| FileModals.GetXmlOfSingleFile | awx/ui/src/screens/Job/FileModal.js:68-89 | an answer with only the XML file leaves the second file's fields `undefined` |
| FileModals.Basename | awx/ui/src/screens/Job/FileModal.js:204-206 | the shown name is the suffix after the last `/` and holds no `/` |
| FileModals.DisplayName | awx/ui/src/screens/Job/FileModal.js:230-232 | a missing name shows nothing, a string shows its basename, any other value throws |
| FileModals.BasenameIgnoresDirectory | awx/ui/src/screens/Job/Filemodal.js:113-115 | a directory prefix does not change the shown name |
| FileModals.OnToggle | awx/ui/src/screens/Job/FileModal.js:37-43 | the item opens iff it was not the open one, and otherwise everything closes |
| FileModals.ToggleTwiceCloses | awx/ui/src/screens/Job/FileModal.js:37-43 | opening and closing an item leaves the accordion closed |
| FileModals.FilemodalView | awx/ui/src/screens/Job/Filemodal.js:104-144 | the wait message iff the second file has no name; otherwise the table of both files |
| FileModals.ViewFollowsTheAnswer | awx/ui/src/screens/Job/Filemodal.js:49-70 | before the answer and after a one-file answer the wait message shows; after a two-file answer the table does |
| FileModals.BackupModal.constructor | awx/ui/src/screens/Job/FileModal.js:25-36 | both files empty, nothing open, no errors |
| FileModals.BackupModal.Toggle | awx/ui/src/screens/Job/FileModal.js:37-43 | the open item follows `OnToggle` and nothing else changes |
| FileModals.BackupModal.ReceiveXml | awx/ui/src/screens/Job/FileModal.js:68-89 | both files are replaced on success and kept on a throw |
| FileModals.BackupModal.Download | awx/ui/src/screens/Job/FileModal.js:107-126 | a file with content is saved under its name; otherwise the XML error is set and the archive error kept |
| JobResult.Scanned | awx/ui/src/screens/Job/JobResult.js:37-41 | the result is the current one or some event's `awx_result` |
| JobResult.ScannedIsLast | awx/ui/src/screens/Job/JobResult.js:37-41 | without a carrying event the result is unchanged; otherwise it is the `awx_result` of the last event carrying one |
| JobResult.LowestCounterWins | awx/ui/src/screens/Job/JobResult.js:32-41 | since events come by descending counter, the result is that of the carrying event with the lowest counter |
| JobResult.LastCarrier | awx/ui/src/screens/Job/JobResult.js:37-41 | there is a last event carrying a result at or after any carrying event |
| JobResult.ApplyEvents | awx/ui/src/screens/Job/JobResult.js:29-41 | without a nullish event the loop computes `Scanned`; otherwise it throws at the first nullish event, after the earlier events have applied |
| JobResult.Columns | awx/ui/src/screens/Job/JobResult.js:46-55 | none without a result, a throw when `columns` is not an array, otherwise one column per entry with only the first marked default |
| JobResult.Header | awx/ui/src/screens/Job/JobResult.js:78 | the column's name when truthy, else its `rowKey` |
| JobResult.Cell | awx/ui/src/screens/Job/JobResult.js:93 | a throw iff the row is `null` or `undefined`; otherwise the text of the row's own property named by `rowKey` (an object's key, an array's or string's index or `length`), or `''` when the row lacks it |
| JobResult.CellOfArrayRow | awx/ui/src/screens/Job/JobResult.js:93 | an array row shows its element at a numeric `rowKey` below its length and `''` at its length |
| JobResult.CellOfRow | awx/ui/src/screens/Job/JobResult.js:93 | a row holding the key with a string shows it; a row without the key shows `''` |
| JobResult.FetchData | awx/ui/src/screens/Job/JobResult.js:28-41 | the events are scanned iff no result is set yet, and the result becomes the last truthy `awx_result` among them; with a result nothing changes; a `null` event throws, keeping what the events before it set |
| JobResult.FetchSettles | awx/ui/src/screens/Job/JobResult.js:29-41 | once an event carries a result, the next run fetches nothing |
| JobResult.Message | awx/ui/src/screens/Job/JobResult.js:57-63 | a message iff the result has no rows; "did not produce a result" iff the job finished, "currently running" iff not |
| JobResult.Screen | awx/ui/src/screens/Job/JobResult.js:46-63 | the columns are built first: a throw there is the screen's outcome, and only otherwise the message (or the table) |
| JobResult.ScreenOutcomes | awx/ui/src/screens/Job/JobResult.js:46-63 | without a result the screen shows the message; a result without a columns array throws even without rows; the table is shown only with columns and rows |
| InventoryForm.Initial | awx/ui/src/screens/Inventory/shared/InventoryForm.js:115-134 | the initial values throw iff the inventory is `null` |
| InventoryForm.InitialDefaults | awx/ui/src/screens/Inventory/shared/InventoryForm.js:123-134 | each field keeps a truthy value of the inventory, else takes `''`, `'---'`, `null`, `[]` or `false` |
| InventoryForm.NewInventoryDefaults | awx/ui/src/screens/Inventory/shared/InventoryForm.js:115-134 | a new form starts from the defaults alone |
| InventoryForm.AutoPopulateOnlyWhenNew | awx/ui/src/screens/Inventory/shared/InventoryForm.js:71 | the organization fills itself in for a new inventory and not for one with a non-zero id |

## Left out

- Integer widths: JavaScript numbers are modelled as unbounded integers. Fractions, exponents and `NaN` are absent except as the `None` of `parseInt` and in the text `Number` reads as 1.
- LegacyTableTree.ConnectionStatus: a decimal text counts as 1 only when its exact value is 1. Texts that round to 1 in double precision (such as `1.00000000000000001`) are read as not 1.
- Python `int()` on the nonce: modelled as an optional sign followed by ASCII digits. Surrounding whitespace, underscores and non-ASCII digits are not modelled.
- HMAC-SHA256, `json.dumps`, `time.time()`, `consumer_access`, and the database query behind `user_can_see_object_id`: all are parameters.
- Concurrency: the awaits of the consumers and the `asyncio.gather` of the update endpoint run one after another. Their interleavings are not modelled.
- The sleeps of `processing_firewalls` and `installing_firewalls`: not modelled.
- JSON objects: key order is not modelled for the status tables (they are maps). Duplicate keys are not modelled.
- `RelayConsumer`, `emit_channel_notification` and `unwrap_broadcast_msg`: not modelled. They are outside the firewall upgrade flow.
- The dead `send_initial_status` nested inside `receive` (consumers.py:276-283): never called, so not modelled.
- The status choices: the model follows `awx/main/models/firewall.py`. A later migration (0190) lists a different set of choices, without `processing`, which the consumers still write. That migration is not modelled.
- Object ids other than integers and strings in subscription requests: not modelled.
- Object identity: the screens compare objects with `===` and `includes`; the model compares them structurally.
- `checkboxId`: its text (the lower-cased, underscore-joined node name) is not modelled; whether it can be built, and the throw when it cannot, is (`TreeTable.RenderChecked`). Other rendering props except those in `TreeTable.Row`: not modelled.
- TreeTable.RenderRows: gives the rows for every name. The throw of `checkboxId` on a name that is not a string is stated by `TreeTable.RenderChecked`, which wraps it.
- The inventory fetch: JSON or YAML parsing of the variables and the regular-expression clean-up before them are not modelled. The extraction starts from the parsed value.
- The YAML fallback branch: not modelled.
- The `GetVersion` network calls, and how the `hostVersions` list is built from them: not modelled. The list itself is what `InventoryTable.Table.SetHosts` receives.
- React rendering, `localStorage`, Blob/URL downloads, `setInterval` polling of `get_log` and the log views of both modals: not modelled.
- The response of `download_file`: not modelled. Only its request is.
- `history.push` after a launch: not modelled.
- The launch response and its errors: the launch request is recorded, and what happens after it is not modelled.
- `selectinventoryname`, the dropdown open flags and the loading spinner's intermediate state: not modelled.
- InventoryTable.Table.Submit: only the final value of `issave` (false) is observable after the handler returns, so the intermediate `true` is not stated.
- `onerror` of `FirewallResult.js` (it closes the socket): not modelled separately. `OnClose` covers the closure it causes.
- The `xrftoken` computed in `FirewallResult.js`'s `connect`: never sent by the source. The model computes it (`CsrfToken`) and proves what it is, without sending it.
- FirewallResult.StatusOf: keys that are arrays or objects (whose text JavaScript builds with `join` or `[object Object]`) read `undefined` instead of the property their text names; so does any key of a status message that is an array or a string, where JavaScript would read its index or `length` (the server always sends an object).
- JobResult.Cell: a `rowKey` that is an array or object is treated as naming no property, for the same reason; so is a cell value that is an array or object, whose text is not built.
- InventoryTable.ShiftClickRange: assumes hosts without repeats and without `undefined`. With repeats, a host inside the range may also sit outside it, and `SelectIndexes` states what happens then.
- UpdateFirewalls.UpdateFirewallsConsumer.Connect: the exception is an outcome value, chosen by whether Django's async-safety check is on. The socket's teardown after the exception is not modelled.
- UpdateFirewalls.UpdateFirewallsConsumer.Receive: the store holds at most one row per address under job 97. The model class declares no unique constraint on (job_id, ip_address) (awx/main/models/firewall.py:14-26), so duplicate rows can exist, and with them `get_or_create` raises `MultipleObjectsReturned`; that case is not modelled. The query printed after each `get_or_create` runs only when the async-safety check is off, and its output is not modelled.
- InventoryViews.Post: only the body of `post` is modelled. The `@api_view(['POST'])` decorator on a method of an `APIView`, the dispatch that hands it the view instance as its request, the coroutine the `async def` returns, and the URL routing are not modelled.

## Findings

| source | as written | input that shows it | evidently intended | confidence | as-written member | corrected member |
|---|---|---|---|---|---|---|
| awx/ui/src/screens/Firewalls/LegacyTableTree.js:896-904 (also LegacyTableTree1.js:2912-2920, LegacyTableTree2.js:306-314) | `onToggleRowDetails` appends the node object, but `isDetailsExpanded` looks for the node's name | toggle the details of any node once from the empty list: the list holds the node object, and the row still reads as collapsed | append `node.name`, so the toggle opens and closes the details | high, not executed | TreeTable.AsWrittenNeverExpands | TreeTable.ToggleDetails |
| awx/ui/src/screens/Firewalls/InventoryTable.js:280 | `areAllReposSelected` compares the selection's length with the host list's length | selection `["10.0.0.1"]` with hosts `["10.0.0.2"]` reads as all selected; hosts `[a, a]` fully selected reads as not all | every host is selected | high, not executed | InventoryTable.StaleSelectionAsWritten | InventoryTable.SelectAllReposChecksHeader |
| awx/ui/src/screens/Job/FirewallResult.js:70-78 | the reconnect timer calls `connect`, which sends on `ws.current`, the socket that just closed | close the socket with code 1006 and let the timer fire: no socket is open and the address list is never sent again | create a new socket and send once it opens | high, not executed | FirewallResult.ReconnectAsWritten | FirewallResult.ReconnectIntended |
