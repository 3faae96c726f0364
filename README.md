# Ansible inventory renderer

The repository's inventory generator reads a host/group document and
writes an Ansible INI-style inventory. Its renderer, `generate_inventory`,
works like this:

- For each group in the `groups` mapping, in insertion order, it writes a
  `[group]` header.
- Under the header it writes one line per host whose `groups` list names
  that group, in document order, and then a blank line.
- Next comes an `[ungrouped]` section for the hosts whose `groups` list is
  absent or empty. The section is left out when there is no such host.
- The inventory always ends with the fixed `[all:vars]` section, which
  disables SSH host key checking.
- The lines are joined with newlines, and no newline follows the last one.

A host's line is its name, followed by `ansible_host=`, `ansible_user=`,
`ansible_ssh_private_key_file=` and `ansible_python_interpreter=` tokens
for the attributes that are present, in that order. Each token is preceded
by a space, and values are written verbatim.

The project has four files:

- `wrappers.dfy`: `Option`.
- `strings.dfy`: `Join`, which models Python's `"\n".join`. Its partner is
  `Split`, which models `str.split`. Both round trips are proved.
- `inventory.dfy`: the document and host datatypes, the rendered text as
  pure functions (`HostLine`, `GroupSection`, `InventoryLines`, `Render`),
  and the renderer itself as methods. The methods loop and append as the
  source does. `GenerateInventory` is proved to return exactly
  `Render(doc)`.
- `properties.dfy`: lemmas about the rendered text. They cover
  - what each section holds and where it sits,
  - which hosts are listed and in which order,
  - how a host line splits back into its words,
  - the line count,
  - when the text splits back into its lines.

## Model

| member | source | states |
|---|---|---|
| Inventory.RenderHostLine | scripts/generate_inventory.py:37-45 | The line built by appending ` key=value` for each present attribute equals `HostLine(host)`: the name and the present tokens for address, user, key file and interpreter, in that order, separated by single spaces. The copy at lines 54-62 is the same code and is modelled by the same method. |
| Inventory.TokenStep | scripts/generate_inventory.py:38-39 | Appending ` key=value` to a line when the attribute is present, and nothing otherwise, is the same as adding that attribute's token to the line's words. |
| Inventory.AppendMemberLines | scripts/generate_inventory.py:35-46 | The inner loop appends exactly the lines of the hosts whose `groups` list names the group, in document order. The rest of the inventory is left as it was. |
| Inventory.AppendGroupSection | scripts/generate_inventory.py:33-47 | One pass of the loop over groups appends the group's header, its members' lines and one blank line. |
| Inventory.AppendHostLines | scripts/generate_inventory.py:53-63 | The loop over the ungrouped hosts appends one line per host, in order. |
| Inventory.AppendUngroupedSection | scripts/generate_inventory.py:50-64 | Appends `[ungrouped]`, the lines of the hosts with an absent or empty `groups` list, and a blank line. Appends nothing when there is no such host. |
| Inventory.GenerateInventory | scripts/generate_inventory.py:26-70 | The renderer returns exactly `Render(doc)`. That is the group sections in mapping order, then the `[ungrouped]` section, then the footer, joined with newlines. |
| Strings.SplitJoin | scripts/generate_inventory.py:70 | Splitting a join at its separator gives back the parts, provided no part holds the separator. |
| Strings.JoinSplit | scripts/generate_inventory.py:70 | Joining the pieces of a split gives back the text. |
| Strings.JoinNoneHolds | scripts/generate_inventory.py:70 | A join holds a character only if one of its parts or the separator does. |
| InventoryProperties.SelectExactly | scripts/generate_inventory.py:36 | A host is listed by a section exactly when it is in the document and the section's test holds for it. |
| InventoryProperties.SelectAt | scripts/generate_inventory.py:35-36 | A listed host at document index `k` sits in the section's host list at the position given by the number of listed hosts before it. |
| InventoryProperties.SelectSource | scripts/generate_inventory.py:50 | Every entry of a section's host list is a listed host of the document. It is the one with exactly that many listed hosts before it. |
| InventoryProperties.SelectInOrder | scripts/generate_inventory.py:35-36 | Of two listed hosts, the earlier one in the document comes first in the section. |
| InventoryProperties.MembersExactly | scripts/generate_inventory.py:35-36 | A group lists exactly the hosts whose `groups` list contains the group's name. |
| InventoryProperties.UngroupedExactly | scripts/generate_inventory.py:50 | `[ungrouped]` lists exactly the hosts whose `groups` list is absent or empty. |
| InventoryProperties.MembersInDocumentOrder | scripts/generate_inventory.py:35-36 | Two hosts of one group appear in its section in document order. |
| InventoryProperties.HostTokensFree | scripts/generate_inventory.py:37-45 | A host's words hold a character only if its name or one of its values does, given that no key holds it. |
| InventoryProperties.HostLineSplits | scripts/generate_inventory.py:37-45 | When no field holds a space, splitting the host line at spaces gives back the name and the `key=value` tokens, in the fixed order. |
| InventoryProperties.HostLineFree | scripts/generate_inventory.py:37-45 | A host line holds a newline only if one of the host's fields does. |
| InventoryProperties.GroupSectionsPrefix | scripts/generate_inventory.py:32-47 | The sections of the first `m` groups are a prefix of all group sections. Earlier output is never changed. |
| InventoryProperties.GroupSectionPlaced | scripts/generate_inventory.py:32-47 | Group `i`'s section sits in the inventory right after the sections of the groups before it. The next group's section starts where it ends. |
| InventoryProperties.GroupSectionAt | scripts/generate_inventory.py:33-47 | At group `i`'s place, the inventory holds `[g]`, one line per member and exactly one blank line. This holds even when the group has no members. |
| InventoryProperties.HostListedUnderGroup | scripts/generate_inventory.py:32-46 | A host appears under every group its `groups` list names, at its document-order position, and always with the same line `HostLine(h)`. |
| InventoryProperties.UngroupedSectionAt | scripts/generate_inventory.py:50-64 | The `[ungrouped]` section is present, in both directions, exactly when some host has an absent or empty `groups` list. It follows the group sections and holds the header, the lines of exactly those hosts and one blank line. Otherwise the footer follows the group sections directly. |
| InventoryProperties.HostListedUngrouped | scripts/generate_inventory.py:50-63 | An ungrouped host appears under `[ungrouped]` at its document-order position, with the same `HostLine(h)` a grouped host gets. |
| InventoryProperties.FooterOnly | scripts/generate_inventory.py:31-68 | The inventory is made of the two footer lines alone exactly when there are no groups and no host is ungrouped. |
| InventoryProperties.EndsWithFooter | scripts/generate_inventory.py:66-70 | The last two lines are `[all:vars]` and the common SSH arguments line. The text is the rest joined, a newline, and those two lines. It does not end in a newline. |
| InventoryProperties.GroupSectionsLength | scripts/generate_inventory.py:32-47 | The group sections take two lines per group plus one per member. |
| InventoryProperties.LineCount | scripts/generate_inventory.py:28-68 | The total line count is the sum over groups of 2 plus the member count, plus 2 plus the ungrouped count when an ungrouped host exists, plus 2. |
| InventoryProperties.RenderSplitsIntoLines | scripts/generate_inventory.py:70 | Splitting the text at newlines gives back the lines exactly when no line holds a newline itself. |
| InventoryProperties.GroupSectionFree | scripts/generate_inventory.py:33-47 | A group section holds no newline when neither the group name nor any host field does. |
| InventoryProperties.GroupSectionsFree | scripts/generate_inventory.py:32-47 | The group sections hold no newline when the document holds none. |
| InventoryProperties.UngroupedSectionFree | scripts/generate_inventory.py:50-64 | The `[ungrouped]` section holds no newline when no host field does. |
| InventoryProperties.FooterFree | scripts/generate_inventory.py:67-68 | The footer lines hold no newline. |
| InventoryProperties.FreeDocumentSplits | scripts/generate_inventory.py:28-70 | When no group name or host field holds a newline, the text splits back into exactly the inventory's lines. |
| InventoryProperties.EmptyDocument | scripts/generate_inventory.py:31-70 | A document with no groups and no hosts renders to `[all:vars]`, a newline and the common SSH arguments line. |
| InventoryProperties.WebExample | scripts/generate_inventory.py:32-68 | The lines for one group `web` with one host `h1` that has an address. |

## Left out

- `load_hosts_json` (scripts/generate_inventory.py:13-23) is not modelled. It does file I/O, JSON decoding, stderr output and process exit. The model starts from the decoded document.
- `main` (scripts/generate_inventory.py:73-87) is not modelled. Its path resolution, file existence check, empty-inventory fallback and `print` are I/O.
- The group variables are read by the loop over groups but never reach the output. The document therefore keeps only the group names, in insertion order.
- Absent `groups` and `hosts` keys behave exactly like empty ones, so both are modelled as empty sequences. An absent `groups` list on a host is modelled as the empty sequence too.
- Python's dynamic typing is not modelled. Examples are a `groups` value that is a string, which would make `in` a substring test, or values that are not strings. Fields are typed strings, and each attribute is present or absent.
- A host without `name` raises `KeyError`. In the model `name` is a mandatory field, so that error path does not arise.
- Names and values are arbitrary strings, because the source escapes nothing. The split-back lemmas state when the text can still be read back.
- The group names form a sequence, so the model admits repeated names, which a mapping cannot hold. No lemma depends on the names being distinct.
- The two identical host-line blocks are modelled by one method, `RenderHostLine`. The loop bodies are factored into helper methods called in the same order as the source's statements.
