/**
 What a load of the cluster database puts where: every command, attribute and cluster as its
 entry in the property tree says, and when a load succeeds.
 */
module ClusterLoad {
  import opened Bytes
  import opened DataTypes
  import opened SearchableList
  import opened DynamicTypes
  import opened ClusterDb

  // ----- Commands -----

  predicate CommandReadable(e: Entry, mangler: Mangler, numbers: Numbers) {
    numbers(e.key).Some? && numbers(e.key).value <= 255 && ParseProperties(e.tree.children, mangler).Some?
  }

  predicate CommandsReadable(entries: seq<Entry>, mangler: Mangler, numbers: Numbers) {
    entries == [] || (CommandReadable(entries[0], mangler, numbers) && CommandsReadable(entries[1..], mangler, numbers))
  }

  /** One command an entry: its key is the id, its value the name, its children the arguments. */
  function ReadCommands(entries: seq<Entry>, isGlobal: bool, mangler: Mangler, numbers: Numbers): seq<CommandInfo>
    requires CommandsReadable(entries, mangler, numbers)
  {
    if entries == [] then []
    else
      var e := entries[0];
      var data := CommandData(isGlobal, ParseProperties(e.tree.children, mangler).value);
      [Item(numbers(e.key).value, mangler(e.tree.data), data)] + ReadCommands(entries[1..], isGlobal, mangler, numbers)
  }

  /** x can be added: its id and its name are new. */
  lemma AddedIffDistinct<Data>(items: seq<Item<int, string, Data>>, x: Item<int, string, Data>)
    requires Distinct(items)
    ensures Added(items, x) == (if Distinct(items + [x]) then items + [x] else items)
  {
    var all := items + [x];
    if SearchId(items, x.id).Some? {
      var y := SearchId(items, x.id).value;
      var i :| 0 <= i < |items| && items[i] == y;
      assert all[i].id == all[|items|].id;
    } else if SearchName(items, x.name).Some? {
      var y := SearchName(items, x.name).value;
      var i :| 0 <= i < |items| && items[i] == y;
      assert all[i].name == all[|items|].name;
    } else {
      forall i, j | 0 <= i < j < |all|
        ensures all[i].id != all[j].id && all[i].name != all[j].name
      {
        assert all[i] in items;
      }
    }
  }

  lemma PrefixDistinct<Data>(a: seq<Item<int, string, Data>>, b: seq<Item<int, string, Data>>)
    requires Distinct(a + b)
    ensures Distinct(a)
  {
    forall i, j | 0 <= i < j < |a|
      ensures a[i].id != a[j].id && a[i].name != a[j].name
    {
      assert (a + b)[i] == a[i] && (a + b)[j] == a[j];
    }
  }

  /** A list of commands loads exactly when every entry can be read and no id or name is used
      twice, and then it holds one command an entry, in order. */
  lemma {:induction false} CommandsLoad(cs: seq<CommandInfo>, isGlobal: bool, entries: seq<Entry>, mangler: Mangler,
      numbers: Numbers)
    requires Distinct(cs)
    ensures var l := LoadCommands(cs, isGlobal, entries, mangler, numbers);
      && (l.ok <==> CommandsReadable(entries, mangler, numbers)
                    && Distinct(cs + ReadCommands(entries, isGlobal, mangler, numbers)))
      && (l.ok ==> l.value == cs + ReadCommands(entries, isGlobal, mangler, numbers))
    decreases |entries|
  {
    hide ParseProperties, Distinct, Added;
    if entries == [] {
      assert cs + [] == cs;
    } else if CommandReadable(entries[0], mangler, numbers) {
      var e := entries[0];
      var data := CommandData(isGlobal, ParseProperties(e.tree.children, mangler).value);
      var x: CommandInfo := Item(numbers(e.key).value, mangler(e.tree.data), data);
      AddedIffDistinct(cs, x);
      if CommandsReadable(entries[1..], mangler, numbers) {
        var rest := ReadCommands(entries[1..], isGlobal, mangler, numbers);
        assert cs + ([x] + rest) == (cs + [x]) + rest;
        if Distinct(cs + [x] + rest) {
          PrefixDistinct(cs + [x], rest);
        }
      }
      if Distinct(cs + [x]) {
        CommandsLoad(cs + [x], isGlobal, entries[1..], mangler, numbers);
      }
    }
  }

  // ----- Attributes -----

  predicate AttributeReadable(e: Entry, numbers: Numbers) {
    numbers(e.key).Some? && numbers(e.key).value <= 0xFFFF
    && (TypeEntry(e.tree.children).Some? ==> TypeOfName(TypeEntry(e.tree.children).value).Some?)
  }

  predicate AttributesReadable(entries: seq<Entry>, numbers: Numbers) {
    entries == [] || (AttributeReadable(entries[0], numbers) && AttributesReadable(entries[1..], numbers))
  }

  /** The data type named by the first child called "type", if there is one. */
  function TypeIn(children: seq<Entry>): Option<byte> {
    if children == [] then None
    else if children[0].key == "type" then TypeOfName(children[0].tree.data)
    else TypeIn(children[1..])
  }

  lemma {:induction false} TypeInIsTypeEntry(children: seq<Entry>)
    ensures TypeIn(children) == if TypeEntry(children).Some? then TypeOfName(TypeEntry(children).value) else None
  {
    hide TypeOfName;
    if children != [] && children[0].key != "type" {
      TypeInIsTypeEntry(children[1..]);
    }
  }

  function ReadAttributes(entries: seq<Entry>, mangler: Mangler, numbers: Numbers): seq<AttributeInfo>
    requires AttributesReadable(entries, numbers)
  {
    if entries == [] then []
    else
      var e := entries[0];
      [Item(numbers(e.key).value, mangler(e.tree.data), TypeIn(e.tree.children))]
      + ReadAttributes(entries[1..], mangler, numbers)
  }

  lemma {:induction false} AttributesLoad(xs: seq<AttributeInfo>, entries: seq<Entry>, mangler: Mangler,
      numbers: Numbers)
    requires Distinct(xs)
    ensures var l := LoadAttributes(xs, entries, mangler, numbers);
      && (l.ok <==> AttributesReadable(entries, numbers) && Distinct(xs + ReadAttributes(entries, mangler, numbers)))
      && (l.ok ==> l.value == xs + ReadAttributes(entries, mangler, numbers))
    decreases |entries|
  {
    hide TypeOfName, Distinct, Added, TypeIn, TypeEntry;
    if entries == [] {
      assert xs + [] == xs;
    } else if AttributeReadable(entries[0], numbers) {
      var e := entries[0];
      TypeInIsTypeEntry(e.tree.children);
      var x: AttributeInfo := Item(numbers(e.key).value, mangler(e.tree.data), TypeIn(e.tree.children));
      AddedIffDistinct(xs, x);
      if AttributesReadable(entries[1..], numbers) {
        var rest := ReadAttributes(entries[1..], mangler, numbers);
        assert xs + ([x] + rest) == (xs + [x]) + rest;
        if Distinct(xs + [x] + rest) {
          PrefixDistinct(xs + [x], rest);
        }
      }
      if Distinct(xs + [x]) {
        AttributesLoad(xs + [x], entries[1..], mangler, numbers);
      }
    }
  }

  // ----- Clusters -----

  datatype Section = Attributes | ServerToClient | ClientToServer | Unknown

  /** What a section of a cluster is about. */
  function SectionOf(e: Entry): Section {
    if e.key == "attributes" then Attributes
    else if e.key == "commands" && e.tree.data == "serverToClient" then ServerToClient
    else if e.key == "commands" && e.tree.data == "clientToServer" then ClientToServer
    else Unknown
  }

  predicate AllKnown(sections: seq<Entry>) {
    sections == [] || (SectionOf(sections[0]) != Unknown && AllKnown(sections[1..]))
  }

  /** The entries of all sections of one kind. */
  function Under(sections: seq<Entry>, kind: Section): seq<Entry> {
    if sections == [] then []
    else (if SectionOf(sections[0]) == kind then sections[0].tree.children else []) + Under(sections[1..], kind)
  }

  lemma {:induction false} CommandsTogether(a: seq<Entry>, b: seq<Entry>, isGlobal: bool, mangler: Mangler,
      numbers: Numbers)
    ensures CommandsReadable(a + b, mangler, numbers)
       <==> CommandsReadable(a, mangler, numbers) && CommandsReadable(b, mangler, numbers)
    ensures CommandsReadable(a + b, mangler, numbers) ==>
      ReadCommands(a + b, isGlobal, mangler, numbers)
      == ReadCommands(a, isGlobal, mangler, numbers) + ReadCommands(b, isGlobal, mangler, numbers)
  {
    hide CommandReadable;
    if a == [] {
      assert a + b == b;
    } else {
      assert (a + b)[1..] == a[1..] + b;
      CommandsTogether(a[1..], b, isGlobal, mangler, numbers);
    }
  }

  lemma {:induction false} AttributesTogether(a: seq<Entry>, b: seq<Entry>, mangler: Mangler, numbers: Numbers)
    ensures AttributesReadable(a + b, numbers) <==> AttributesReadable(a, numbers) && AttributesReadable(b, numbers)
    ensures AttributesReadable(a + b, numbers) ==>
      ReadAttributes(a + b, mangler, numbers)
      == ReadAttributes(a, mangler, numbers) + ReadAttributes(b, mangler, numbers)
  {
    hide AttributeReadable, TypeIn;
    if a == [] {
      assert a + b == b;
    } else {
      assert (a + b)[1..] == a[1..] + b;
      AttributesTogether(a[1..], b, mangler, numbers);
    }
  }

  /** The commands after those of entries have been added, if they can be. */
  function WithCommands(cs: seq<CommandInfo>, entries: seq<Entry>, mangler: Mangler, numbers: Numbers)
    : Option<seq<CommandInfo>>
  {
    if CommandsReadable(entries, mangler, numbers) then Some(cs + ReadCommands(entries, false, mangler, numbers))
    else None
  }

  function WithAttributes(xs: seq<AttributeInfo>, entries: seq<Entry>, mangler: Mangler, numbers: Numbers)
    : Option<seq<AttributeInfo>>
  {
    if AttributesReadable(entries, numbers) then Some(xs + ReadAttributes(entries, mangler, numbers)) else None
  }

  ghost predicate Fits<Data>(items: Option<seq<Item<int, string, Data>>>) {
    items.Some? && Distinct(items.value)
  }

  lemma CommandsFitTogether(cs: seq<CommandInfo>, a: seq<Entry>, b: seq<Entry>, mangler: Mangler, numbers: Numbers)
    ensures var first, all := WithCommands(cs, a, mangler, numbers), WithCommands(cs, a + b, mangler, numbers);
      && (Fits(all) ==> Fits(first))
      && (first.Some? ==> all == WithCommands(first.value, b, mangler, numbers))
      && (first.None? ==> all.None?)
  {
    hide CommandsReadable, ReadCommands, Distinct;
    CommandsTogether(a, b, false, mangler, numbers);
    if CommandsReadable(a + b, mangler, numbers) {
      var x, y := ReadCommands(a, false, mangler, numbers), ReadCommands(b, false, mangler, numbers);
      assert cs + (x + y) == (cs + x) + y;
      if Distinct(cs + x + y) {
        PrefixDistinct(cs + x, y);
      }
    }
  }

  lemma AttributesFitTogether(xs: seq<AttributeInfo>, a: seq<Entry>, b: seq<Entry>, mangler: Mangler, numbers: Numbers)
    ensures var first, all := WithAttributes(xs, a, mangler, numbers), WithAttributes(xs, a + b, mangler, numbers);
      && (Fits(all) ==> Fits(first))
      && (first.Some? ==> all == WithAttributes(first.value, b, mangler, numbers))
      && (first.None? ==> all.None?)
  {
    hide AttributesReadable, ReadAttributes, Distinct;
    AttributesTogether(a, b, mangler, numbers);
    if AttributesReadable(a + b, numbers) {
      var x, y := ReadAttributes(a, mangler, numbers), ReadAttributes(b, mangler, numbers);
      assert xs + (x + y) == (xs + x) + y;
      if Distinct(xs + x + y) {
        PrefixDistinct(xs + x, y);
      }
    }
  }

  /** Main result. A cluster loads exactly when all its sections are known, their entries can
      be read, and no id or name is used twice in a list; and then its attributes and the
      commands of either direction are those of its sections of that kind, in order. */
  lemma {:induction false} ClusterLoads(c: ClusterData, sections: seq<Entry>, mangler: Mangler, numbers: Numbers)
    requires Distinct(c.attributes) && Distinct(c.serverToClient) && Distinct(c.clientToServer)
    ensures var l := LoadCluster(c, sections, mangler, numbers);
      var xs := WithAttributes(c.attributes, Under(sections, Attributes), mangler, numbers);
      var server := WithCommands(c.serverToClient, Under(sections, ServerToClient), mangler, numbers);
      var client := WithCommands(c.clientToServer, Under(sections, ClientToServer), mangler, numbers);
      && (l.ok <==> AllKnown(sections) && Fits(xs) && Fits(server) && Fits(client))
      && (l.ok ==> l.value == ClusterData(xs.value, server.value, client.value))
    decreases |sections|
  {
    hide LoadCommands, LoadAttributes, Distinct, WithCommands, WithAttributes;
    if sections == [] {
      NothingMore(c, mangler, numbers);
    } else {
      var e, rest := sections[0], sections[1..];
      var children := e.tree.children;
      assert children + Under(rest, SectionOf(e)) == Under(sections, SectionOf(e));
      assert [] + Under(rest, Attributes) == Under(rest, Attributes);
      assert [] + Under(rest, ServerToClient) == Under(rest, ServerToClient);
      assert [] + Under(rest, ClientToServer) == Under(rest, ClientToServer);
      match SectionOf(e)
      case Attributes =>
        AttributesFit(c.attributes, children, mangler, numbers);
        AttributesFitTogether(c.attributes, children, Under(rest, Attributes), mangler, numbers);
        var l := LoadAttributes(c.attributes, children, mangler, numbers);
        if l.ok {
          ClusterLoads(c.(attributes := l.value), rest, mangler, numbers);
        }
      case ServerToClient =>
        CommandsFit(c.serverToClient, children, mangler, numbers);
        CommandsFitTogether(c.serverToClient, children, Under(rest, ServerToClient), mangler, numbers);
        var l := LoadCommands(c.serverToClient, false, children, mangler, numbers);
        if l.ok {
          ClusterLoads(c.(serverToClient := l.value), rest, mangler, numbers);
        }
      case ClientToServer =>
        CommandsFit(c.clientToServer, children, mangler, numbers);
        CommandsFitTogether(c.clientToServer, children, Under(rest, ClientToServer), mangler, numbers);
        var l := LoadCommands(c.clientToServer, false, children, mangler, numbers);
        if l.ok {
          ClusterLoads(c.(clientToServer := l.value), rest, mangler, numbers);
        }
      case Unknown =>
    }
  }

  lemma NothingMore(c: ClusterData, mangler: Mangler, numbers: Numbers)
    ensures WithAttributes(c.attributes, [], mangler, numbers) == Some(c.attributes)
    ensures WithCommands(c.serverToClient, [], mangler, numbers) == Some(c.serverToClient)
    ensures WithCommands(c.clientToServer, [], mangler, numbers) == Some(c.clientToServer)
  {
    assert c.attributes + [] == c.attributes && c.serverToClient + [] == c.serverToClient;
    assert c.clientToServer + [] == c.clientToServer;
  }

  lemma CommandsFit(cs: seq<CommandInfo>, entries: seq<Entry>, mangler: Mangler, numbers: Numbers)
    requires Distinct(cs)
    ensures var l, w := LoadCommands(cs, false, entries, mangler, numbers), WithCommands(cs, entries, mangler, numbers);
      (l.ok <==> Fits(w)) && (l.ok ==> l.value == w.value && Distinct(l.value))
  {
    CommandsLoad(cs, false, entries, mangler, numbers);
  }

  lemma AttributesFit(xs: seq<AttributeInfo>, entries: seq<Entry>, mangler: Mangler, numbers: Numbers)
    requires Distinct(xs)
    ensures var l, w := LoadAttributes(xs, entries, mangler, numbers), WithAttributes(xs, entries, mangler, numbers);
      (l.ok <==> Fits(w)) && (l.ok ==> l.value == w.value && Distinct(l.value))
  {
    AttributesLoad(xs, entries, mangler, numbers);
  }

  // ----- The database -----

  /** An entry called "global" adds to the global commands; any other is a cluster, whose key is
      its id and whose value its name. */
  lemma EntryLoads(db: Db, e: Entry, mangler: Mangler, numbers: Numbers)
    requires Distinct(db.clusters) && Distinct(db.globals)
    ensures var l := LoadEntry(db, e, mangler, numbers);
      if e.key == "global" then
        && (l.ok <==> CommandsReadable(e.tree.children, mangler, numbers)
                      && Distinct(db.globals + ReadCommands(e.tree.children, true, mangler, numbers)))
        && (l.ok ==> l.value == Db(db.clusters, db.globals + ReadCommands(e.tree.children, true, mangler, numbers)))
      else
        var c := LoadCluster(ClusterData([], [], []), e.tree.children, mangler, numbers);
        && (l.ok <==> numbers(e.key).Some? && numbers(e.key).value <= 0xFFFF && c.ok
                      && Distinct(db.clusters + [Item(numbers(e.key).value, mangler(e.tree.data), c.value)]))
        && (l.ok ==>
              l.value == Db(db.clusters + [Item(numbers(e.key).value, mangler(e.tree.data), c.value)], db.globals))
        && (!l.ok ==> l.value == db)
  {
    hide LoadCommands, LoadCluster, Distinct, Added;
    if e.key == "global" {
      CommandsLoad(db.globals, true, e.tree.children, mangler, numbers);
    } else if numbers(e.key).Some? {
      var c := LoadCluster(ClusterData([], [], []), e.tree.children, mangler, numbers);
      var x: ClusterInfo := Item(numbers(e.key).value, mangler(e.tree.data), c.value);
      AddedIffDistinct(db.clusters, x);
      assert db.clusters + [x] != db.clusters;
    }
  }

  /** Entries are loaded one after the other, up to the first that fails. */
  lemma {:induction false} LoadsInOrder(db: Db, a: seq<Entry>, e: Entry, b: seq<Entry>, mangler: Mangler,
      numbers: Numbers)
    ensures Load(db, [], mangler, numbers) == Loaded(true, db)
    ensures var first := Load(db, a, mangler, numbers);
      var next := LoadEntry(first.value, e, mangler, numbers);
      Load(db, a + [e] + b, mangler, numbers)
      == if !first.ok then first else if !next.ok then next else Load(next.value, b, mangler, numbers)
    decreases |a|
  {
    hide LoadEntry;
    if a == [] {
      assert a + [e] + b == [e] + b && ([e] + b)[1..] == b;
    } else {
      assert (a + [e] + b)[0] == a[0] && (a + [e] + b)[1..] == a[1..] + [e] + b;
      LoadsInOrder(LoadEntry(db, a[0], mangler, numbers).value, a[1..], e, b, mangler, numbers);
    }
  }

  /** Direction 1 is from server to client, 0 the other way. */
  lemma DirectionsMatchSections(db: Db, x: ClusterInfo)
    requires Distinct(db.clusters) && x in db.clusters
    ensures CommandsOf(db, x.id, 1) == Some(x.data.serverToClient)
    ensures CommandsOf(db, x.id, 0) == Some(x.data.clientToServer)
  {
    LookupsAreInverse(db.clusters, x);
  }

  // ----- The words of the grammar -----

  /** The prefixes, in front of anything, and the two words that stand alone. */
  lemma GrammarWords(rest: string, tree: PTree, mangler: Mangler)
    ensures ParseType("repeated:" + rest, tree, mangler) == ArrayOf(0, ParseType(rest, tree, mangler))
    ensures ParseType("arr8:" + rest, tree, mangler) == ArrayOf(1, ParseType(rest, tree, mangler))
    ensures ParseType("arr16:" + rest, tree, mangler) == ArrayOf(2, ParseType(rest, tree, mangler))
    ensures var t := ParseType(rest, tree, mangler);
      ParseType("error_or:" + rest, tree, mangler) == if t.None? then None else Some(ErrorOrType(t.value))
    ensures ParseType("variant", tree, mangler) == Some(VariantType)
    ensures var ps := ParseProperties(tree.children, mangler);
      ParseType("object", tree, mangler) == if ps.None? then None else Some(ObjectType(ps.value))
  {
    hide TypeOfName, ParseProperties;
    KeywordsDiffer(rest);
    ObjectAndVariantAreNoPrefixes();
    PrefixWords(rest, tree, mangler);
  }

  lemma PrefixWords(rest: string, tree: PTree, mangler: Mangler)
    ensures ParseType("repeated:" + rest, tree, mangler) == ArrayOf(0, ParseType(rest, tree, mangler))
    ensures ParseType("arr8:" + rest, tree, mangler) == ArrayOf(1, ParseType(rest, tree, mangler))
    ensures ParseType("arr16:" + rest, tree, mangler) == ArrayOf(2, ParseType(rest, tree, mangler))
  {
    hide TypeOfName, ParseProperties;
    KeywordsDiffer(rest);
    assert "repeated:" + rest == REPEATED + rest && "arr8:" + rest == ARR8 + rest && "arr16:" + rest == ARR16 + rest;
  }
}
