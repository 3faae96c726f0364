/** The inventory renderer: an already-parsed host/group document becomes
    Ansible INI-style inventory text. The functions state what the text is;
    the methods build it step by step, as the renderer does, and are proved
    to produce exactly that text. */
module Inventory {
  import opened Wrappers
  import opened Strings

  /** One entry of the document's `hosts` list. An absent `groups` list is
      the empty sequence; each connection attribute is present or not. */
  datatype Host = Host(
    name: string,
    groups: seq<string>,
    ip: Option<string>,
    user: Option<string>,
    sshKey: Option<string>,
    pythonInterpreter: Option<string>)

  /** The document: the names of its `groups` mapping in insertion order
      (the group variables are never used) and its `hosts` in order. */
  datatype Document = Document(groupNames: seq<string>, hosts: seq<Host>)

  const UngroupedHeader := "[ungrouped]"
  const AllVarsHeader := "[all:vars]"
  /** The SSH options every host gets: no host key checking. */
  const CommonArgs := "'-o StrictHostKeyChecking=no'"
  const CommonArgsLine := "ansible_ssh_common_args=" + CommonArgs

  /** The fixed section every inventory ends with. */
  const Footer := [AllVarsHeader, CommonArgsLine]

  function Header(groupName: string): string {
    "[" + groupName + "]"
  }

  // ---------------------------------------------------------------------
  // Host lines

  /** The keys of the connection attributes, each with its `=`. */
  const HostKey := "ansible_host="
  const UserKey := "ansible_user="
  const KeyFileKey := "ansible_ssh_private_key_file="
  const InterpreterKey := "ansible_python_interpreter="

  /** The `key=value` token of a present attribute (as a one-element list),
      none for an absent one; the value is written verbatim. */
  function Token(key: string, value: Option<string>): seq<string> {
    if value.Some? then [key + value.value] else []
  }

  /** The words of the host's line: its name, then the tokens of its
      attributes in the fixed order address, user, key file, interpreter,
      absent ones skipped. */
  function HostTokens(h: Host): seq<string> {
    [h.name] + Token(HostKey, h.ip) + Token(UserKey, h.user) + Token(KeyFileKey, h.sshKey)
      + Token(InterpreterKey, h.pythonInterpreter)
  }

  /** The host's line: its words separated by single spaces. */
  function HostLine(h: Host): string {
    Join(HostTokens(h), ' ')
  }

  /** The lines of a sequence of hosts, one per host, in the same order. */
  function HostLines(hosts: seq<Host>): (r: seq<string>)
    ensures |r| == |hosts|
    decreases |hosts|
  {
    if |hosts| == 0 then []
    else HostLines(hosts[..|hosts| - 1]) + [HostLine(hosts[|hosts| - 1])]
  }

  // ---------------------------------------------------------------------
  // Selecting hosts

  /** Which hosts a section lists: a named group's, or the ungrouped ones. */
  datatype Section = GroupNamed(name: string) | UngroupedHosts

  /** A group section lists the hosts whose `groups` list names the group;
      `[ungrouped]` lists the hosts whose `groups` list is absent or empty. */
  predicate Lists(section: Section, h: Host) {
    match section
    case GroupNamed(g) => g in h.groups
    case UngroupedHosts => h.groups == []
  }

  /** The hosts a section lists, in document order. */
  function Select(hosts: seq<Host>, section: Section): (r: seq<Host>)
    ensures |r| <= |hosts|
    decreases |hosts|
  {
    if |hosts| == 0 then []
    else
      var last := hosts[|hosts| - 1];
      Select(hosts[..|hosts| - 1], section) + (if Lists(section, last) then [last] else [])
  }

  /** The hosts listed under a group's section. */
  function Members(hosts: seq<Host>, groupName: string): seq<Host> {
    Select(hosts, GroupNamed(groupName))
  }

  /** The hosts listed under `[ungrouped]`. */
  function Ungrouped(hosts: seq<Host>): seq<Host> {
    Select(hosts, UngroupedHosts)
  }

  // ---------------------------------------------------------------------
  // Sections and the whole inventory

  /** A group's section: header, one line per member, a blank line. */
  function GroupSection(groupName: string, hosts: seq<Host>): seq<string> {
    [Header(groupName)] + HostLines(Members(hosts, groupName)) + [""]
  }

  /** The group sections, one after another, in the order of the names. */
  function GroupSections(groupNames: seq<string>, hosts: seq<Host>): seq<string>
    decreases |groupNames|
  {
    if |groupNames| == 0 then []
    else
      GroupSections(groupNames[..|groupNames| - 1], hosts)
        + GroupSection(groupNames[|groupNames| - 1], hosts)
  }

  /** The `[ungrouped]` section, or nothing when no host is ungrouped. */
  function UngroupedSection(hosts: seq<Host>): seq<string> {
    var ungrouped := Ungrouped(hosts);
    if ungrouped == [] then []
    else [UngroupedHeader] + HostLines(ungrouped) + [""]
  }

  /** The inventory's lines before they are joined. */
  function InventoryLines(doc: Document): seq<string> {
    GroupSections(doc.groupNames, doc.hosts) + UngroupedSection(doc.hosts) + Footer
  }

  /** The inventory text: its lines joined with newlines, no trailing newline. */
  function Render(doc: Document): string {
    Join(InventoryLines(doc), '\n')
  }

  // ---------------------------------------------------------------------
  // Unfolding steps used by the methods below

  /** Appending ` key=value` when the attribute is present adds its token
      to the line. */
  lemma TokenStep(tokens: seq<string>, key: string, value: Option<string>)
    requires |tokens| >= 1
    ensures Join(tokens + Token(key, value), ' ')
            == if value.Some? then Join(tokens, ' ') + " " + key + value.value else Join(tokens, ' ')
  {
    if value.Some? {
      var all := tokens + [key + value.value];
      assert all[..|all| - 1] == tokens;
      SeqAssoc(Join(tokens, ' ') + " ", key, value.value);
    } else {
      assert tokens + [] == tokens;
    }
  }

  lemma SeqAssoc(a: string, b: string, c: string)
    ensures a + (b + c) == a + b + c
  {
  }

  /** One more host, considered for a group's section. */
  lemma MembersStep(hosts: seq<Host>, j: nat, groupName: string)
    requires j < |hosts|
    ensures Members(hosts[..j + 1], groupName)
            == Members(hosts[..j], groupName)
               + (if groupName in hosts[j].groups then [hosts[j]] else [])
  {
    assert hosts[..j + 1][..j] == hosts[..j];
  }

  /** One more host line at the end. */
  lemma HostLinesStep(hosts: seq<Host>, h: Host)
    ensures HostLines(hosts + [h]) == HostLines(hosts) + [HostLine(h)]
  {
    assert (hosts + [h])[..|hosts|] == hosts;
  }

  /** One more group section at the end. */
  lemma GroupSectionsStep(groupNames: seq<string>, i: nat, hosts: seq<Host>)
    requires i < |groupNames|
    ensures GroupSections(groupNames[..i + 1], hosts)
            == GroupSections(groupNames[..i], hosts) + GroupSection(groupNames[i], hosts)
  {
    assert groupNames[..i + 1][..i] == groupNames[..i];
  }

  // ---------------------------------------------------------------------
  // The renderer as the source runs it

  /** Builds a host's line token by token. The source has this code twice,
      once for group sections and once for `[ungrouped]`, word for word;
      both places call this one method. */
  method RenderHostLine(host: Host) returns (hostLine: string)
    ensures hostLine == HostLine(host)
  {
    hostLine := host.name;
    ghost var tokens := [host.name];
    TokenStep(tokens, HostKey, host.ip);
    if host.ip.Some? {
      hostLine := hostLine + " " + HostKey + host.ip.value;
    }
    tokens := tokens + Token(HostKey, host.ip);
    TokenStep(tokens, UserKey, host.user);
    if host.user.Some? {
      hostLine := hostLine + " " + UserKey + host.user.value;
    }
    tokens := tokens + Token(UserKey, host.user);
    TokenStep(tokens, KeyFileKey, host.sshKey);
    if host.sshKey.Some? {
      hostLine := hostLine + " " + KeyFileKey + host.sshKey.value;
    }
    tokens := tokens + Token(KeyFileKey, host.sshKey);
    TokenStep(tokens, InterpreterKey, host.pythonInterpreter);
    if host.pythonInterpreter.Some? {
      hostLine := hostLine + " " + InterpreterKey + host.pythonInterpreter.value;
    }
    tokens := tokens + Token(InterpreterKey, host.pythonInterpreter);
  }

  /** The loop over the hosts for one group: appends the line of every
      host whose `groups` list names the group, in document order. */
  method AppendMemberLines(inventory: seq<string>, groupName: string, hosts: seq<Host>)
    returns (extended: seq<string>)
    ensures extended == inventory + HostLines(Members(hosts, groupName))
  {
    extended := inventory;
    ghost var members: seq<Host> := [];
    var j := 0;
    while j < |hosts|
      invariant 0 <= j <= |hosts|
      invariant members == Members(hosts[..j], groupName)
      invariant extended == inventory + HostLines(members)
    {
      var host := hosts[j];
      MembersStep(hosts, j, groupName);
      if groupName in host.groups {
        var hostLine := RenderHostLine(host);
        HostLinesStep(members, host);
        extended := extended + [hostLine];
        members := members + [host];
      }
      j := j + 1;
    }
    assert hosts[..j] == hosts;
  }

  /** The body of the loop over groups: the group's header, its members'
      lines and a blank line. */
  method AppendGroupSection(inventory: seq<string>, groupName: string, hosts: seq<Host>)
    returns (extended: seq<string>)
    ensures extended == inventory + GroupSection(groupName, hosts)
  {
    extended := inventory + [Header(groupName)];
    extended := AppendMemberLines(extended, groupName, hosts);
    extended := extended + [""];
    assert extended
           == inventory + ([Header(groupName)] + HostLines(Members(hosts, groupName)) + [""]);
  }

  /** The loop over the ungrouped hosts: appends each one's line, in order. */
  method AppendHostLines(inventory: seq<string>, hosts: seq<Host>)
    returns (extended: seq<string>)
    ensures extended == inventory + HostLines(hosts)
  {
    extended := inventory;
    ghost var listed: seq<Host> := [];
    var k := 0;
    while k < |hosts|
      invariant 0 <= k <= |hosts|
      invariant listed == hosts[..k]
      invariant extended == inventory + HostLines(listed)
    {
      var hostLine := RenderHostLine(hosts[k]);
      HostLinesStep(listed, hosts[k]);
      assert hosts[..k + 1] == listed + [hosts[k]];
      assert extended + [hostLine] == inventory + (HostLines(listed) + [hostLine]);
      extended := extended + [hostLine];
      listed := listed + [hosts[k]];
      k := k + 1;
    }
    assert listed == hosts;
  }

  /** Appends the `[ungrouped]` section when some host has no groups. */
  method AppendUngroupedSection(inventory: seq<string>, hosts: seq<Host>)
    returns (extended: seq<string>)
    ensures extended == inventory + UngroupedSection(hosts)
  {
    extended := inventory;
    var ungrouped := Ungrouped(hosts);
    if ungrouped != [] {
      extended := extended + [UngroupedHeader];
      extended := AppendHostLines(extended, ungrouped);
      extended := extended + [""];
      assert extended == inventory + ([UngroupedHeader] + HostLines(ungrouped) + [""]);
    } else {
      assert extended == inventory + [];
    }
  }

  /** The renderer: group sections in the order of the names, the ungrouped
      section, the fixed footer, all joined with newlines. The text is
      exactly `Render(doc)`. */
  method GenerateInventory(doc: Document) returns (text: string)
    ensures text == Render(doc)
  {
    var inventory: seq<string> := [];
    var groups := doc.groupNames;
    var i := 0;
    while i < |groups|
      invariant 0 <= i <= |groups|
      invariant inventory == GroupSections(groups[..i], doc.hosts)
    {
      inventory := AppendGroupSection(inventory, groups[i], doc.hosts);
      GroupSectionsStep(groups, i, doc.hosts);
      i := i + 1;
    }
    assert groups[..i] == groups;
    ghost var grouped := inventory;
    inventory := AppendUngroupedSection(inventory, doc.hosts);
    inventory := inventory + [AllVarsHeader];
    inventory := inventory + [CommonArgsLine];
    assert inventory == grouped + UngroupedSection(doc.hosts) + Footer;
    text := Join(inventory, '\n');
  }
}
