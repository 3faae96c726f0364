/** What the inventory text promises: its section layout, which hosts each
    section lists and in which order, how a host line is made of tokens,
    how many lines there are, and that the text splits back into its lines. */
module InventoryProperties {
  import opened Wrappers
  import opened Strings
  import opened Inventory

  // ---------------------------------------------------------------------
  // Selecting hosts: exactly the matching ones, in document order

  lemma {:induction false} HostLinesAt(hosts: seq<Host>, i: nat)
    requires i < |hosts|
    ensures HostLines(hosts)[i] == HostLine(hosts[i])
    decreases |hosts|
  {
    if i < |hosts| - 1 {
      HostLinesAt(hosts[..|hosts| - 1], i);
    }
  }

  /** A host is selected exactly when it is in the document and passes the test. */
  lemma {:induction false} SelectExactly(hosts: seq<Host>, section: Section, h: Host)
    ensures h in Select(hosts, section) <==> h in hosts && Lists(section, h)
    decreases |hosts|
  {
    if |hosts| > 0 {
      var front := hosts[..|hosts| - 1];
      SelectExactly(front, section, h);
      assert hosts == front + [hosts[|hosts| - 1]];
    }
  }

  /** Selecting from a prefix of the hosts gives a prefix of the selection. */
  lemma {:induction false} SelectPrefix(hosts: seq<Host>, section: Section, m: nat)
    requires m <= |hosts|
    ensures Select(hosts[..m], section) <= Select(hosts, section)
    decreases |hosts|
  {
    if m == |hosts| {
      assert hosts[..m] == hosts;
    } else {
      var front := hosts[..|hosts| - 1];
      assert front[..m] == hosts[..m];
      SelectPrefix(front, section, m);
    }
  }

  /** A matching host at index `k` sits in the selection at the position
      given by the number of matching hosts before it. */
  lemma SelectAt(hosts: seq<Host>, section: Section, k: nat)
    requires k < |hosts| && Lists(section, hosts[k])
    ensures |Select(hosts[..k], section)| < |Select(hosts, section)|
    ensures Select(hosts, section)[|Select(hosts[..k], section)|] == hosts[k]
  {
    assert hosts[..k + 1][..k] == hosts[..k];
    assert Select(hosts[..k + 1], section) == Select(hosts[..k], section) + [hosts[k]];
    SelectPrefix(hosts, section, k + 1);
  }

  /** Every position of the selection holds a matching host of the
      document, namely the one with exactly that many matches before it. */
  lemma {:induction false} SelectSource(hosts: seq<Host>, section: Section, r: nat) returns (k: nat)
    requires r < |Select(hosts, section)|
    ensures k < |hosts| && Lists(section, hosts[k])
    ensures |Select(hosts[..k], section)| == r && Select(hosts, section)[r] == hosts[k]
    decreases |hosts|
  {
    var n := |hosts|;
    var front := hosts[..n - 1];
    var last := hosts[n - 1];
    assert Select(hosts, section) == Select(front, section) + (if Lists(section, last) then [last] else []);
    if r < |Select(front, section)| {
      k := SelectSource(front, section, r);
      assert front[..k] == hosts[..k];
    } else {
      k := n - 1;
      assert hosts[..k] == front;
    }
  }

  /** Matching hosts keep their document order in the selection. */
  lemma SelectInOrder(hosts: seq<Host>, section: Section, j: nat, k: nat)
    requires j < k < |hosts| && Lists(section, hosts[j]) && Lists(section, hosts[k])
    ensures |Select(hosts[..j], section)| < |Select(hosts[..k], section)|
  {
    var upTo := hosts[..k];
    assert upTo[..j + 1] == hosts[..j + 1];
    SelectPrefix(upTo, section, j + 1);
    assert hosts[..j + 1][..j] == hosts[..j];
    assert Select(hosts[..j + 1], section) == Select(hosts[..j], section) + [hosts[j]];
  }

  /** A group lists exactly the hosts whose `groups` list names it. */
  lemma MembersExactly(hosts: seq<Host>, groupName: string, h: Host)
    ensures h in Members(hosts, groupName) <==> h in hosts && groupName in h.groups
  {
    SelectExactly(hosts, GroupNamed(groupName), h);
  }

  /** `[ungrouped]` lists exactly the hosts with an absent or empty `groups`. */
  lemma UngroupedExactly(hosts: seq<Host>, h: Host)
    ensures h in Ungrouped(hosts) <==> h in hosts && h.groups == []
  {
    SelectExactly(hosts, UngroupedHosts, h);
  }

  /** Two hosts of one group appear in its section in document order. */
  lemma MembersInDocumentOrder(hosts: seq<Host>, groupName: string, j: nat, k: nat)
    requires j < k < |hosts|
    requires groupName in hosts[j].groups && groupName in hosts[k].groups
    ensures var a, b := |Members(hosts[..j], groupName)|, |Members(hosts[..k], groupName)|;
            a < b < |Members(hosts, groupName)|
            && Members(hosts, groupName)[a] == hosts[j]
            && Members(hosts, groupName)[b] == hosts[k]
  {
    var section := GroupNamed(groupName);
    SelectInOrder(hosts, section, j, k);
    SelectAt(hosts, section, j);
    SelectAt(hosts, section, k);
  }

  // ---------------------------------------------------------------------
  // Host lines

  predicate HasNo(value: Option<string>, c: char) {
    value.Some? ==> c !in value.value
  }

  /** No field of the host that reaches its line holds `c`. */
  predicate FieldsFree(h: Host, c: char) {
    c !in h.name && HasNo(h.ip, c) && HasNo(h.user, c) && HasNo(h.sshKey, c)
    && HasNo(h.pythonInterpreter, c)
  }

  /** No attribute key holds a space. */
  lemma KeysHaveNoSpace()
    ensures ' ' !in HostKey && ' ' !in UserKey && ' ' !in KeyFileKey && ' ' !in InterpreterKey
  {
  }

  /** No attribute key holds a newline. */
  lemma KeysHaveNoNewline()
    ensures '\n' !in HostKey && '\n' !in UserKey && '\n' !in KeyFileKey && '\n' !in InterpreterKey
  {
  }

  lemma TokenFree(key: string, value: Option<string>, c: char)
    requires c !in key && HasNo(value, c)
    ensures NoneHolds(Token(key, value), c)
  {
  }

  /** A host's words hold `c` only if one of its fields does. */
  lemma HostTokensFree(h: Host, c: char)
    requires FieldsFree(h, c)
    requires c !in HostKey && c !in UserKey && c !in KeyFileKey && c !in InterpreterKey
    ensures NoneHolds(HostTokens(h), c)
  {
    var t1 := [h.name];
    assert NoneHolds(t1, c);
    TokenFree(HostKey, h.ip, c);
    ConcatNoneHolds(t1, Token(HostKey, h.ip), c);
    var t2 := t1 + Token(HostKey, h.ip);
    TokenFree(UserKey, h.user, c);
    ConcatNoneHolds(t2, Token(UserKey, h.user), c);
    var t3 := t2 + Token(UserKey, h.user);
    TokenFree(KeyFileKey, h.sshKey, c);
    ConcatNoneHolds(t3, Token(KeyFileKey, h.sshKey), c);
    var t4 := t3 + Token(KeyFileKey, h.sshKey);
    TokenFree(InterpreterKey, h.pythonInterpreter, c);
    ConcatNoneHolds(t4, Token(InterpreterKey, h.pythonInterpreter), c);
  }

  /** Since values are written verbatim, the line splits on spaces back into
      its words when no field holds a space. */
  lemma HostLineSplits(h: Host)
    requires FieldsFree(h, ' ')
    ensures Split(HostLine(h), ' ') == HostTokens(h)
  {
    KeysHaveNoSpace();
    HostTokensFree(h, ' ');
    SplitJoin(HostTokens(h), ' ');
  }

  // ---------------------------------------------------------------------
  // Section layout

  /** The sections of a prefix of the group names are a prefix of all sections. */
  lemma {:induction false} GroupSectionsPrefix(groupNames: seq<string>, hosts: seq<Host>, m: nat)
    requires m <= |groupNames|
    ensures GroupSections(groupNames[..m], hosts) <= GroupSections(groupNames, hosts)
    decreases |groupNames|
  {
    if m == |groupNames| {
      assert groupNames[..m] == groupNames;
    } else {
      var front := groupNames[..|groupNames| - 1];
      assert front[..m] == groupNames[..m];
      GroupSectionsPrefix(front, hosts, m);
    }
  }

  /** Where group `i`'s section starts: after the sections of the groups before it. */
  function SectionStart(doc: Document, i: nat): nat
    requires i <= |doc.groupNames|
  {
    |GroupSections(doc.groupNames[..i], doc.hosts)|
  }

  lemma PrefixTransitive(a: seq<string>, b: seq<string>, c: seq<string>)
    requires a <= b && b <= c
    ensures a <= c
  {
    assert c[..|b|][..|a|] == c[..|a|];
  }

  /** Where `b` sits inside a sequence that starts with `a + b`. */
  lemma SliceOfPrefix(a: seq<string>, b: seq<string>, s: seq<string>)
    requires a + b <= s
    ensures |a| + |b| <= |s| && s[|a|..|a| + |b|] == b
  {
    assert s[|a|..|a| + |b|] == (a + b)[|a|..];
  }

  /** The group sections open the inventory. */
  lemma SectionsOpenInventory(doc: Document)
    ensures GroupSections(doc.groupNames, doc.hosts) <= InventoryLines(doc)
  {
    var all := GroupSections(doc.groupNames, doc.hosts);
    var rest := UngroupedSection(doc.hosts) + Footer;
    assert InventoryLines(doc) == all + rest;
  }

  /** Group `i`'s section sits in the inventory right after the sections
      of the groups before it, and the next one follows it directly. */
  lemma GroupSectionPlaced(doc: Document, i: nat)
    requires i < |doc.groupNames|
    ensures var start, section := SectionStart(doc, i), GroupSection(doc.groupNames[i], doc.hosts);
            var lines := InventoryLines(doc);
            start + |section| <= |lines| && lines[start..start + |section|] == section
            && SectionStart(doc, i + 1) == start + |section|
  {
    var gs, hosts := doc.groupNames, doc.hosts;
    var before := GroupSections(gs[..i], hosts);
    var section := GroupSection(gs[i], hosts);
    GroupSectionsStep(gs, i, hosts);
    GroupSectionsPrefix(gs, hosts, i + 1);
    SectionsOpenInventory(doc);
    PrefixTransitive(before + section, GroupSections(gs, hosts), InventoryLines(doc));
    SliceOfPrefix(before, section, InventoryLines(doc));
  }

  /** Group `i` has its header, the lines of its members and one blank line,
      even when it has no members; the next section starts right after it. */
  lemma GroupSectionAt(doc: Document, i: nat)
    requires i < |doc.groupNames|
    ensures var g := doc.groupNames[i];
            var start, lines := SectionStart(doc, i), InventoryLines(doc);
            var members := Members(doc.hosts, g);
            start + |members| + 2 <= |lines|
            && lines[start..start + |members| + 2]
               == [Header(g)] + HostLines(members) + [""]
            && SectionStart(doc, i + 1) == start + |members| + 2
  {
    GroupSectionPlaced(doc, i);
  }

  /** A host appears once in each group section its `groups` list names,
      at the position of its document order, with the same line each time. */
  lemma HostListedUnderGroup(doc: Document, i: nat, j: nat)
    requires i < |doc.groupNames| && j < |doc.hosts|
    requires doc.groupNames[i] in doc.hosts[j].groups
    ensures var g := doc.groupNames[i];
            var row := SectionStart(doc, i) + 1 + |Members(doc.hosts[..j], g)|;
            row < |InventoryLines(doc)| && InventoryLines(doc)[row] == HostLine(doc.hosts[j])
  {
    var g := doc.groupNames[i];
    var members := Members(doc.hosts, g);
    var pos := |Members(doc.hosts[..j], g)|;
    SelectAt(doc.hosts, GroupNamed(g), j);
    GroupSectionAt(doc, i);
    HostLinesAt(members, pos);
    var start := SectionStart(doc, i);
    var section := [Header(g)] + HostLines(members) + [""];
    SliceAt(InventoryLines(doc), start, section, 1 + pos);
  }

  /** An element of a slice, read in the whole sequence. */
  lemma SliceAt(s: seq<string>, start: nat, slice: seq<string>, k: nat)
    requires start + |slice| <= |s| && s[start..start + |slice|] == slice && k < |slice|
    ensures s[start + k] == slice[k]
  {
  }

  /** The `[ungrouped]` section is there exactly when some host has an
      absent or empty `groups` list; it follows the group sections and is
      its header, the lines of those hosts and one blank line. */
  lemma UngroupedSectionAt(doc: Document)
    ensures var start, lines := |GroupSections(doc.groupNames, doc.hosts)|, InventoryLines(doc);
            var ungrouped := Ungrouped(doc.hosts);
            && (ungrouped != [] <==> exists j :: 0 <= j < |doc.hosts| && doc.hosts[j].groups == [])
            && (ungrouped != [] ==>
                  start + |ungrouped| + 2 <= |lines|
                  && lines[start..start + |ungrouped| + 2]
                     == [UngroupedHeader] + HostLines(ungrouped) + [""])
            && (ungrouped == [] ==> lines[start..] == Footer)
  {
    var hosts := doc.hosts;
    var ungrouped := Ungrouped(hosts);
    var all := GroupSections(doc.groupNames, hosts);
    var section := UngroupedSection(hosts);
    assert InventoryLines(doc) == all + section + Footer;
    if ungrouped != [] {
      UngroupedExactly(hosts, ungrouped[0]);
      var j :| 0 <= j < |hosts| && hosts[j] == ungrouped[0];
      assert hosts[j].groups == [];
      SliceOfPrefix(all, section, InventoryLines(doc));
    } else {
      forall j | 0 <= j < |hosts| ensures hosts[j].groups != [] {
        UngroupedExactly(hosts, hosts[j]);
      }
      assert all + section == all;
    }
  }

  /** An ungrouped host appears under `[ungrouped]` at the position of its
      document order. */
  lemma HostListedUngrouped(doc: Document, j: nat)
    requires j < |doc.hosts| && doc.hosts[j].groups == []
    ensures var row := |GroupSections(doc.groupNames, doc.hosts)| + 1 + |Ungrouped(doc.hosts[..j])|;
            row < |InventoryLines(doc)| && InventoryLines(doc)[row] == HostLine(doc.hosts[j])
  {
    var ungrouped := Ungrouped(doc.hosts);
    var pos := |Ungrouped(doc.hosts[..j])|;
    SelectAt(doc.hosts, UngroupedHosts, j);
    UngroupedSectionAt(doc);
    HostLinesAt(ungrouped, pos);
    var start := |GroupSections(doc.groupNames, doc.hosts)|;
    var section := [UngroupedHeader] + HostLines(ungrouped) + [""];
    SliceAt(InventoryLines(doc), start, section, 1 + pos);
  }

  /** The inventory is only the fixed footer exactly when there are no
      groups and no host is ungrouped; in particular for an empty document. */
  lemma FooterOnly(doc: Document)
    ensures InventoryLines(doc) == Footer
            <==> doc.groupNames == [] && forall h :: h in doc.hosts ==> h.groups != []
  {
    var gs, hosts := doc.groupNames, doc.hosts;
    if gs != [] {
      GroupSectionAt(doc, 0);
      assert |InventoryLines(doc)| > 2;
    } else {
      forall h | h in hosts ensures h in Ungrouped(hosts) <==> h.groups == [] {
        UngroupedExactly(hosts, h);
      }
      if Ungrouped(hosts) != [] {
        UngroupedExactly(hosts, Ungrouped(hosts)[0]);
      }
    }
  }

  /** The last two lines are the fixed `[all:vars]` section, and the text
      ends with them, with no newline after the last one. */
  lemma EndsWithFooter(doc: Document)
    ensures var lines := InventoryLines(doc);
            |lines| >= 2 && lines[|lines| - 2] == AllVarsHeader && lines[|lines| - 1] == CommonArgsLine
    ensures var body := GroupSections(doc.groupNames, doc.hosts) + UngroupedSection(doc.hosts);
            Render(doc) == (if body == [] then "" else Join(body, '\n') + "\n")
                           + AllVarsHeader + "\n" + CommonArgsLine
    ensures Render(doc)[|Render(doc)| - 1] != '\n'
  {
    var body := GroupSections(doc.groupNames, doc.hosts) + UngroupedSection(doc.hosts);
    var lines := InventoryLines(doc);
    assert lines[..|lines| - 1] == body + [AllVarsHeader];
    assert (body + [AllVarsHeader])[..|body|] == body;
    var t := Render(doc);
    assert t == Join(body + [AllVarsHeader], '\n') + "\n" + CommonArgsLine;
  }

  // ---------------------------------------------------------------------
  // Line count

  /** The number of lines the group sections take: two per group plus one
      per member. */
  function GroupLineCount(groupNames: seq<string>, hosts: seq<Host>): nat
    decreases |groupNames|
  {
    if |groupNames| == 0 then 0
    else
      GroupLineCount(groupNames[..|groupNames| - 1], hosts)
        + 2 + |Members(hosts, groupNames[|groupNames| - 1])|
  }

  lemma {:induction false} GroupSectionsLength(groupNames: seq<string>, hosts: seq<Host>)
    ensures |GroupSections(groupNames, hosts)| == GroupLineCount(groupNames, hosts)
    decreases |groupNames|
  {
    if |groupNames| > 0 {
      GroupSectionsLength(groupNames[..|groupNames| - 1], hosts);
    }
  }

  /** Total lines: each group's 2 + members, the ungrouped section's
      2 + hosts when it is there, and the 2 footer lines. */
  lemma LineCount(doc: Document)
    ensures var ungrouped := Ungrouped(doc.hosts);
            |InventoryLines(doc)|
            == GroupLineCount(doc.groupNames, doc.hosts)
               + (if ungrouped == [] then 0 else 2 + |ungrouped|) + 2
  {
    GroupSectionsLength(doc.groupNames, doc.hosts);
  }

  // ---------------------------------------------------------------------
  // The text and its lines

  /** The lines hold no newline, so the text determines them. */
  predicate LinesFree(doc: Document) {
    NoneHolds(InventoryLines(doc), '\n')
  }

  /** Splitting the text at newlines gives back the lines exactly when no
      line holds a newline itself (values are written unescaped). */
  lemma RenderSplitsIntoLines(doc: Document)
    ensures Split(Render(doc), '\n') == InventoryLines(doc) <==> LinesFree(doc)
  {
    EndsWithFooter(doc);
    if LinesFree(doc) {
      SplitJoin(InventoryLines(doc), '\n');
    }
  }

  /** No group name and no host field holds a newline. */
  predicate DocumentFree(doc: Document) {
    && NoneHolds(doc.groupNames, '\n')
    && (forall h :: h in doc.hosts ==> FieldsFree(h, '\n'))
  }

  lemma HostLineFree(h: Host)
    requires FieldsFree(h, '\n')
    ensures '\n' !in HostLine(h)
  {
    KeysHaveNoNewline();
    HostTokensFree(h, '\n');
    JoinNoneHolds(HostTokens(h), ' ', '\n');
  }

  lemma HostLinesFree(hosts: seq<Host>, all: seq<Host>)
    requires forall h :: h in all ==> FieldsFree(h, '\n')
    requires forall h :: h in hosts ==> h in all
    ensures NoneHolds(HostLines(hosts), '\n')
  {
    forall k | 0 <= k < |hosts| ensures '\n' !in HostLines(hosts)[k] {
      HostLinesAt(hosts, k);
      assert hosts[k] in hosts;
      HostLineFree(hosts[k]);
    }
  }

  /** A section made of a header, host lines and a blank line. */
  lemma SectionFree(header: string, lines: seq<string>)
    requires '\n' !in header && NoneHolds(lines, '\n')
    ensures NoneHolds([header] + lines + [""], '\n')
  {
    ConcatNoneHolds([header], lines, '\n');
    ConcatNoneHolds([header] + lines, [""], '\n');
  }

  /** A group's section holds no newline when the document holds none. */
  lemma GroupSectionFree(doc: Document, g: string)
    requires DocumentFree(doc) && '\n' !in g
    ensures NoneHolds(GroupSection(g, doc.hosts), '\n')
  {
    var hosts := doc.hosts;
    forall h | h in Members(hosts, g) ensures h in hosts {
      MembersExactly(hosts, g, h);
    }
    HostLinesFree(Members(hosts, g), hosts);
    assert '\n' !in Header(g);
    SectionFree(Header(g), HostLines(Members(hosts, g)));
  }

  lemma {:induction false} GroupSectionsFree(doc: Document, m: nat)
    requires DocumentFree(doc) && m <= |doc.groupNames|
    ensures NoneHolds(GroupSections(doc.groupNames[..m], doc.hosts), '\n')
    decreases m
  {
    if m > 0 {
      var gs, hosts := doc.groupNames, doc.hosts;
      GroupSectionsFree(doc, m - 1);
      GroupSectionsStep(gs, m - 1, hosts);
      GroupSectionFree(doc, gs[m - 1]);
      ConcatNoneHolds(GroupSections(gs[..m - 1], hosts), GroupSection(gs[m - 1], hosts), '\n');
    }
  }

  /** The `[ungrouped]` section holds no newline when the document holds none. */
  lemma UngroupedSectionFree(doc: Document)
    requires DocumentFree(doc)
    ensures NoneHolds(UngroupedSection(doc.hosts), '\n')
  {
    var hosts := doc.hosts;
    if Ungrouped(hosts) != [] {
      forall h | h in Ungrouped(hosts) ensures h in hosts {
        UngroupedExactly(hosts, h);
      }
      HostLinesFree(Ungrouped(hosts), hosts);
      assert '\n' !in UngroupedHeader;
      SectionFree(UngroupedHeader, HostLines(Ungrouped(hosts)));
    }
  }

  lemma FooterFree()
    ensures NoneHolds(Footer, '\n')
  {
    assert '\n' !in AllVarsHeader;
    assert '\n' !in CommonArgsLine by {
      assert '\n' !in "ansible_ssh_common_args=" && '\n' !in CommonArgs;
    }
  }

  /** When the document holds no newline, the text splits back into the lines. */
  lemma FreeDocumentSplits(doc: Document)
    requires DocumentFree(doc)
    ensures Split(Render(doc), '\n') == InventoryLines(doc)
  {
    var gs, hosts := doc.groupNames, doc.hosts;
    GroupSectionsFree(doc, |gs|);
    assert gs[..|gs|] == gs;
    UngroupedSectionFree(doc);
    var grouped := GroupSections(gs, hosts);
    ConcatNoneHolds(grouped, UngroupedSection(hosts), '\n');
    FooterFree();
    ConcatNoneHolds(grouped + UngroupedSection(hosts), Footer, '\n');
    RenderSplitsIntoLines(doc);
  }

  // ---------------------------------------------------------------------
  // Worked examples

  /** A document with no groups and no hosts renders to the footer alone. */
  lemma EmptyDocument()
    ensures InventoryLines(Document([], [])) == Footer
    ensures Render(Document([], [])) == AllVarsHeader + "\n" + CommonArgsLine
  {
    var doc := Document([], []);
    assert InventoryLines(doc) == Footer;
    assert Footer[..1] == [AllVarsHeader];
  }

  /** One group `web` and one host in it with an address. */
  lemma WebExample()
    ensures var h := Host("h1", ["web"], Some("10.0.0.1"), None, None, None);
            InventoryLines(Document(["web"], [h]))
            == ["[web]", "h1 " + HostKey + "10.0.0.1", "", AllVarsHeader, CommonArgsLine]
  {
    var h := Host("h1", ["web"], Some("10.0.0.1"), None, None, None);
    var doc := Document(["web"], [h]);
    assert [h][..0] == [];
    assert Members([h], "web") == [h];
    assert Ungrouped([h]) == [];
    assert HostTokens(h) == ["h1", HostKey + "10.0.0.1"];
    assert HostLine(h) == "h1 " + HostKey + "10.0.0.1";
    assert ["web"][..0] == [];
    assert Header("web") == "[web]";
    assert GroupSections(["web"], [h]) == [Header("web"), HostLine(h), ""];
    assert UngroupedSection([h]) == [];
  }
}
