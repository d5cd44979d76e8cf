/**
 The cluster database: a grammar of type names and property trees for command schemas, the
 loader that fills the lists of clusters, commands and attributes, and the lookups.
 */
module ClusterDb {
  import opened Bytes
  import opened DataTypes
  import opened SearchableList
  import opened DynamicTypes

  /** A property tree: a value, and children with keys that may repeat. */
  datatype PTree = Node(data: string, children: seq<Entry>)

  datatype Entry = Entry(key: string, tree: PTree)

  type Mangler = string -> string

  const REPEATED := "repeated:"
  const ARR8 := "arr8:"
  const ARR16 := "arr16:"
  const ERROR_OR := "error_or:"
  const OBJECT := "object"
  const VARIANT := "variant"

  // ----- The schema grammar -----

  function StringStartsWith(haystack: string, needle: string): Option<string> {
    if needle <= haystack then Some(haystack[|needle|..]) else None
  }

  function ParseType(name: string, tree: PTree, mangler: Mangler): (t: Option<Schema>)
    decreases tree, 1, |name|
  {
    if REPEATED <= name then ArrayOf(0, ParseType(name[|REPEATED|..], tree, mangler))
    else if ARR8 <= name then ArrayOf(1, ParseType(name[|ARR8|..], tree, mangler))
    else if ARR16 <= name then ArrayOf(2, ParseType(name[|ARR16|..], tree, mangler))
    else if ERROR_OR <= name then
      (match ParseType(name[|ERROR_OR|..], tree, mangler)
       case None => None
       case Some(t) => Some(ErrorOrType(t)))
    else if name == OBJECT then
      (match ParseProperties(tree.children, mangler)
       case None => None
       case Some(ps) => Some(ObjectType(ps)))
    else if name == VARIANT then Some(VariantType)
    else
      match TypeOfName(name)
      case None => None
      case Some(dt) => Some(DataType(dt))
  }

  function ArrayOf(lengthSize: nat, element: Option<Schema>): Option<Schema> {
    if element.None? then None else Some(ArrayType(lengthSize, element.value))
  }

  function ParseProperties(entries: seq<Entry>, mangler: Mangler): Option<seq<Property>>
    decreases entries, 0, 0
  {
    if entries == [] then Some([])
    else
      match ParseType(entries[0].key, entries[0].tree, mangler)
      case None => None
      case Some(t) =>
        match ParseProperties(entries[1..], mangler)
        case None => None
        case Some(ps) => Some([Property(mangler(entries[0].tree.data), t)] + ps)
  }

  /** The schemas the grammar has words for. */
  predicate Printable(t: Schema) {
    match t
    case XiaomiFF01Type => false
    case ObjectType(ps) => AllPrintable(ps)
    case ArrayType(n, e) => n <= 2 && Printable(e)
    case ErrorOrType(s) => Printable(s)
    case _ => true
  }

  predicate AllPrintable(ps: seq<Property>) {
    ps == [] || (Printable(ps[0].typ) && AllPrintable(ps[1..]))
  }

  function PrintName(t: Schema): string
    requires Printable(t)
  {
    match t
    case VariantType => VARIANT
    case DataType(dt) => TypeName(dt)
    case ObjectType(_) => OBJECT
    case ArrayType(n, e) => (if n == 0 then REPEATED else if n == 1 then ARR8 else ARR16) + PrintName(e)
    case ErrorOrType(s) => ERROR_OR + PrintName(s)
  }

  function PrintTree(t: Schema, data: string): PTree
    requires Printable(t)
  {
    match t
    case ObjectType(ps) => Node(data, PrintEntries(ps))
    case ArrayType(_, e) => PrintTree(e, data)
    case ErrorOrType(s) => PrintTree(s, data)
    case _ => Node(data, [])
  }

  function PrintEntries(ps: seq<Property>): seq<Entry>
    requires AllPrintable(ps)
  {
    if ps == [] then []
    else [Entry(PrintName(ps[0].typ), PrintTree(ps[0].typ, ps[0].name))] + PrintEntries(ps[1..])
  }

  function Mangled(t: Schema, mangler: Mangler): Schema {
    match t
    case ObjectType(ps) => ObjectType(AllMangled(ps, mangler))
    case ArrayType(n, e) => ArrayType(n, Mangled(e, mangler))
    case ErrorOrType(s) => ErrorOrType(Mangled(s, mangler))
    case _ => t
  }

  function AllMangled(ps: seq<Property>, mangler: Mangler): seq<Property> {
    if ps == [] then []
    else [Property(mangler(ps[0].name), Mangled(ps[0].typ, mangler))] + AllMangled(ps[1..], mangler)
  }

  /** No data type is named like one of the grammar's own words. */
  lemma TypeNamesAreNoKeywords(dt: byte)
    ensures var s := TypeName(dt);
      !(REPEATED <= s) && !(ARR8 <= s) && !(ARR16 <= s) && !(ERROR_OR <= s) && s != OBJECT && s != VARIANT
  {
    var s := TypeName(dt);
    if KnownName(dt).Some? {
      NameDecodes(dt, s);
      if REPEATED <= s || ERROR_OR <= s || s == OBJECT || s == VARIANT {
        NoFamilyLetters(s);
      }
      if ARR8 <= s || ARR16 <= s {
        assert Starts(s, 'a', 'r', 'r');
        ArrayName(s);
      }
    }
  }

  lemma NoFamilyLetters(s: string)
    requires REPEATED <= s || ERROR_OR <= s || s == OBJECT || s == VARIANT
    ensures |s| >= 3 && CodeOf(s) == 0xff && s != "unk"
  {
    assert s[0] == REPEATED[0] || s[0] == ERROR_OR[0] || s[0] == OBJECT[0] || s[0] == VARIANT[0];
    assert s[1] == REPEATED[1] || s[1] == ERROR_OR[1] || s[1] == OBJECT[1] || s[1] == VARIANT[1];
  }

  lemma ArrayName(s: string)
    requires |s| >= 3 && Starts(s, 'a', 'r', 'r')
    ensures CodeOf(s) == 0x48 && KnownName(0x48) == Some("array")
    ensures s == "array" ==> !(ARR8 <= s) && !(ARR16 <= s)
  {
    assert "array"[3] == 'a' && ARR8[3] == '8' && ARR16[3] == '1';
  }

  /** A keyword in front of a name is recognised, and is the only one recognised. */
  lemma KeywordsDiffer(rest: string)
    ensures REPEATED <= REPEATED + rest && (REPEATED + rest)[|REPEATED|..] == rest
    ensures var s := ARR8 + rest; ARR8 <= s && s[|ARR8|..] == rest && !(REPEATED <= s)
    ensures var s := ARR16 + rest; ARR16 <= s && s[|ARR16|..] == rest && !(REPEATED <= s) && !(ARR8 <= s)
    ensures var s := ERROR_OR + rest;
      ERROR_OR <= s && s[|ERROR_OR|..] == rest && !(REPEATED <= s) && !(ARR8 <= s) && !(ARR16 <= s)
  {
    assert (REPEATED + rest)[0] == 'r';
    assert (ARR8 + rest)[0] == 'a' && (ARR8 + rest)[3] == '8';
    assert (ARR16 + rest)[0] == 'a' && (ARR16 + rest)[3] == '1';
    assert (ERROR_OR + rest)[0] == 'e';
    assert REPEATED[0] == 'r' && ARR8[0] == 'a' && ARR8[3] == '8' && ARR16[0] == 'a';
  }

  lemma ObjectAndVariantAreNoPrefixes()
    ensures !(REPEATED <= OBJECT) && !(ARR8 <= OBJECT) && !(ARR16 <= OBJECT) && !(ERROR_OR <= OBJECT)
    ensures !(REPEATED <= VARIANT) && !(ARR8 <= VARIANT) && !(ARR16 <= VARIANT) && !(ERROR_OR <= VARIANT)
    ensures OBJECT != VARIANT
  {
    assert REPEATED[0] == 'r' && ARR8[0] == 'a' && ARR16[0] == 'a' && ERROR_OR[0] == 'e';
    assert OBJECT[0] == 'o' && VARIANT[0] == 'v';
  }

  /** Main result. Parsing what was printed gives back the schema, its property names mangled
      once. */
  lemma {:induction false} ParseOfPrint(t: Schema, data: string, mangler: Mangler)
    requires Printable(t)
    ensures ParseType(PrintName(t), PrintTree(t, data), mangler) == Some(Mangled(t, mangler))
  {
    hide TypeName, TypeOfName;
    match t
    case VariantType => ObjectAndVariantAreNoPrefixes();
    case DataType(dt) =>
      TypeNamesAreNoKeywords(dt);
      TypeNameRoundTrip(dt);
    case ObjectType(ps) =>
      ObjectAndVariantAreNoPrefixes();
      ParseOfPrintEntries(ps, mangler);
    case ArrayType(n, e) =>
      KeywordsDiffer(PrintName(e));
      ParseOfPrint(e, data, mangler);
    case ErrorOrType(s) =>
      KeywordsDiffer(PrintName(s));
      ParseOfPrint(s, data, mangler);
  }

  lemma {:induction false} ParseOfPrintEntries(ps: seq<Property>, mangler: Mangler)
    requires AllPrintable(ps)
    ensures ParseProperties(PrintEntries(ps), mangler) == Some(AllMangled(ps, mangler))
  {
    if ps != [] {
      ParseOfPrint(ps[0].typ, ps[0].name, mangler);
      DataOfPrint(ps[0].typ, ps[0].name);
      ParseOfPrintEntries(ps[1..], mangler);
      assert PrintEntries(ps)[1..] == PrintEntries(ps[1..]);
    }
  }

  lemma {:induction false} DataOfPrint(t: Schema, data: string)
    requires Printable(t)
    ensures PrintTree(t, data).data == data
  {
    match t
    case ArrayType(_, e) => DataOfPrint(e, data);
    case ErrorOrType(s) => DataOfPrint(s, data);
    case _ =>
  }

  /** Conversely everything that parses is printable: the grammar has no words for the Xiaomi
      block or for wider lengths. */
  lemma {:induction false} ParsedIsPrintable(name: string, tree: PTree, mangler: Mangler)
    ensures var t := ParseType(name, tree, mangler); t.Some? ==> Printable(t.value)
    decreases tree, 1, |name|
  {
    hide TypeOfName;
    if REPEATED <= name {
      ParsedIsPrintable(name[|REPEATED|..], tree, mangler);
    } else if ARR8 <= name {
      ParsedIsPrintable(name[|ARR8|..], tree, mangler);
    } else if ARR16 <= name {
      ParsedIsPrintable(name[|ARR16|..], tree, mangler);
    } else if ERROR_OR <= name {
      ParsedIsPrintable(name[|ERROR_OR|..], tree, mangler);
    } else if name == OBJECT {
      ParsedArePrintable(tree.children, mangler);
    }
  }

  lemma {:induction false} ParsedArePrintable(entries: seq<Entry>, mangler: Mangler)
    ensures var ps := ParseProperties(entries, mangler); ps.Some? ==> AllPrintable(ps.value)
    decreases entries, 0, 0
  {
    if entries != [] {
      ParsedIsPrintable(entries[0].key, entries[0].tree, mangler);
      ParsedArePrintable(entries[1..], mangler);
      var ps := ParseProperties(entries, mangler);
      if ps.Some? {
        assert ps.value[1..] == ParseProperties(entries[1..], mangler).value;
      }
    }
  }

  /** The mangler leaves every property name in t as it is. */
  predicate Fixed(t: Schema, mangler: Mangler) {
    match t
    case ObjectType(ps) => AllFixed(ps, mangler)
    case ArrayType(_, e) => Fixed(e, mangler)
    case ErrorOrType(s) => Fixed(s, mangler)
    case _ => true
  }

  predicate AllFixed(ps: seq<Property>, mangler: Mangler) {
    ps == [] || (mangler(ps[0].name) == ps[0].name && Fixed(ps[0].typ, mangler) && AllFixed(ps[1..], mangler))
  }

  lemma {:induction false} MangledIffFixed(t: Schema, mangler: Mangler)
    ensures Mangled(t, mangler) == t <==> Fixed(t, mangler)
  {
    match t
    case ObjectType(ps) => AllMangledIffFixed(ps, mangler);
    case ArrayType(_, e) => MangledIffFixed(e, mangler);
    case ErrorOrType(s) => MangledIffFixed(s, mangler);
    case _ =>
  }

  lemma {:induction false} AllMangledIffFixed(ps: seq<Property>, mangler: Mangler)
    ensures AllMangled(ps, mangler) == ps <==> AllFixed(ps, mangler)
  {
    hide Mangled, Fixed;
    if ps != [] {
      MangledIffFixed(ps[0].typ, mangler);
      AllMangledIffFixed(ps[1..], mangler);
      var p, first := ps[0], Property(mangler(ps[0].name), Mangled(ps[0].typ, mangler));
      ConsEqual(first, AllMangled(ps[1..], mangler), p, ps[1..]);
      assert ps == [p] + ps[1..];
    }
  }

  lemma ConsEqual(p: Property, ps: seq<Property>, q: Property, qs: seq<Property>)
    ensures [p] + ps == [q] + qs <==> p == q && ps == qs
  {
    if [p] + ps == [q] + qs {
      assert ([p] + ps)[0] == ([q] + qs)[0] && ([p] + ps)[1..] == ([q] + qs)[1..];
    }
  }

  /** Main result. Printing and parsing gives back the same schema exactly when the mangler
      leaves all its property names alone. */
  lemma ParseOfPrintIsSame(t: Schema, data: string, mangler: Mangler)
    requires Printable(t)
    ensures ParseType(PrintName(t), PrintTree(t, data), mangler) == Some(t) <==> Fixed(t, mangler)
  {
    ParseOfPrint(t, data, mangler);
    MangledIffFixed(t, mangler);
  }

  function Same(name: string): string {
    name
  }

  /** The mangler only touches names: parsing with it is parsing without, then mangling. */
  lemma {:induction false} ParseThenMangle(name: string, tree: PTree, mangler: Mangler)
    ensures var u := ParseType(name, tree, Same);
      ParseType(name, tree, mangler) == if u.None? then None else Some(Mangled(u.value, mangler))
    decreases tree, 1, |name|
  {
    hide TypeOfName;
    if REPEATED <= name {
      ParseThenMangle(name[|REPEATED|..], tree, mangler);
    } else if ARR8 <= name {
      ParseThenMangle(name[|ARR8|..], tree, mangler);
    } else if ARR16 <= name {
      ParseThenMangle(name[|ARR16|..], tree, mangler);
    } else if ERROR_OR <= name {
      ParseThenMangle(name[|ERROR_OR|..], tree, mangler);
    } else if name == OBJECT {
      ParseAllThenMangle(tree.children, mangler);
    }
  }

  lemma {:induction false} ParseAllThenMangle(entries: seq<Entry>, mangler: Mangler)
    ensures var us := ParseProperties(entries, Same);
      ParseProperties(entries, mangler) == if us.None? then None else Some(AllMangled(us.value, mangler))
    decreases entries, 0, 0
  {
    if entries != [] {
      ParseThenMangle(entries[0].key, entries[0].tree, mangler);
      ParseAllThenMangle(entries[1..], mangler);
      var us := ParseProperties(entries, Same);
      if us.Some? {
        assert us.value[1..] == ParseProperties(entries[1..], Same).value;
      }
    }
  }

  lemma {:induction false} SameFixes(t: Schema, mangler: Mangler)
    requires forall name :: mangler(name) == name
    ensures Fixed(t, mangler)
  {
    match t
    case ObjectType(ps) => SameFixesAll(ps, mangler);
    case ArrayType(_, e) => SameFixes(e, mangler);
    case ErrorOrType(s) => SameFixes(s, mangler);
    case _ =>
  }

  lemma {:induction false} SameFixesAll(ps: seq<Property>, mangler: Mangler)
    requires forall name :: mangler(name) == name
    ensures AllFixed(ps, mangler)
  {
    if ps != [] {
      SameFixes(ps[0].typ, mangler);
      SameFixesAll(ps[1..], mangler);
    }
  }

  /** The schemas that parse are the printable ones with their property names mangled; with a
      mangler that changes no name, the printable ones. */
  lemma GrammarIsPrintable(t: Schema, mangler: Mangler)
    ensures (exists name, tree :: ParseType(name, tree, mangler) == Some(t))
       <==> exists u :: Printable(u) && Mangled(u, mangler) == t
    ensures (forall name :: mangler(name) == name) ==>
      (Printable(t) <==> exists name, tree :: ParseType(name, tree, mangler) == Some(t))
  {
    if u :| Printable(u) && Mangled(u, mangler) == t {
      ParseOfPrint(u, "", mangler);
      assert ParseType(PrintName(u), PrintTree(u, ""), mangler) == Some(t);
    }
    if name, tree :| ParseType(name, tree, mangler) == Some(t) {
      ParseThenMangle(name, tree, mangler);
      ParsedIsPrintable(name, tree, Same);
      ParsedIsPrintable(name, tree, mangler);
    }
    if forall name :: mangler(name) == name {
      SameFixes(t, mangler);
      MangledIffFixed(t, mangler);
    }
  }

  /** The entry for Report Attributes in the shipped cluster definitions. */
  const REPORT: Entry := Entry(
    "0x0a",
    Node("Report Attributes", [
      Entry("repeated:object", Node("reports", [
        Entry("attribId", Node("Attribute identifier", [])),
        Entry("variant", Node("Attribute data", []))
      ]))
    ]))

  function ReportSchema(mangler: Mangler): Schema {
    ObjectType([Property(mangler("reports"), ArrayType(0, ObjectType([
      Property(mangler("Attribute identifier"), DataType(ATTRIBID)),
      Property(mangler("Attribute data"), VariantType)
    ])))])
  }

  /** Its schema is one the codec's laws hold for, as long as the mangler keeps its two
      property names apart. */
  lemma ReportSchemaBehaves(mangler: Mangler)
    requires mangler("Attribute identifier") != mangler("Attribute data")
    ensures ParseProperties(REPORT.tree.children, mangler) == Some(ReportSchema(mangler).properties)
    ensures var t := ReportSchema(mangler); TailGreedy(t) && Unambiguous(t) && Productive(t)
  {
    ReportParses(mangler);
    RecordsBehave(mangler("Attribute identifier"), mangler("Attribute data"));
    var reports := ReportSchema(mangler).properties;
    assert reports[1..] == [];
  }

  lemma RecordsBehave(identifier: string, data: string)
    requires identifier != data
    ensures var t := ObjectType([Property(identifier, DataType(ATTRIBID)), Property(data, VariantType)]);
      TailGreedy(t) && Unambiguous(t) && Productive(t) && ConsumesByte(t) && !EndsGreedy(t)
  {
    var p, q := Property(identifier, DataType(ATTRIBID)), Property(data, VariantType);
    assert [p, q][1..] == [q] && [q][1..] == [];
    assert Names([]) == {} && Names([q]) == {data};
    assert AllTailGreedy([]) && AllUnambiguous([]) && AllProductive([]);
    assert TailGreedy(q.typ) && Unambiguous(q.typ) && Productive(q.typ);
    assert TailGreedy(p.typ) && Unambiguous(p.typ) && Productive(p.typ);
    assert AllTailGreedy([q]) && AllTailGreedy([p, q]);
    assert AllUnambiguous([q]) && AllUnambiguous([p, q]);
    assert AllProductive([q]) && AllProductive([p, q]);
    assert SomeConsumes([q]) && SomeConsumes([p, q]);
  }

  lemma ReportParses(mangler: Mangler)
    ensures ParseProperties(REPORT.tree.children, mangler) == Some(ReportSchema(mangler).properties)
  {
    hide TypeOfName, TypeName, ParseType, ParseProperties;
    var p, q := Property("Attribute identifier", DataType(ATTRIBID)), Property("Attribute data", VariantType);
    var inner := ObjectType([p, q]);
    var t := ObjectType([Property("reports", ArrayType(0, inner))]);
    AttributeIdName();
    OneProperty(q, mangler);
    FirstProperty(p, [q], mangler);
    assert [p, q] == [p] + [q];
    OneProperty(t.properties[0], mangler);
    assert REPEATED + OBJECT == "repeated:object";
    assert PrintTree(VariantType, "Attribute data") == Node("Attribute data", []);
    assert PrintTree(DataType(ATTRIBID), "Attribute identifier") == Node("Attribute identifier", []);
    assert PrintEntries([p, q]) == REPORT.tree.children[0].tree.children;
    assert PrintTree(inner, "reports") == REPORT.tree.children[0].tree;
    assert PrintName(inner) == OBJECT && PrintName(t.properties[0].typ) == REPEATED + OBJECT;
    assert PrintTree(t.properties[0].typ, "reports") == PrintTree(inner, "reports");
    ParseOfPrintEntries(t.properties, mangler);
    assert Mangled(inner, mangler) == ReportSchema(mangler).properties[0].typ.element;
  }

  lemma AttributeIdName()
    ensures TypeName(ATTRIBID) == "attribId"
  {
    assert KnownName(ATTRIBID) == OtherName(ATTRIBID) == Some("attribId");
  }

  lemma FirstProperty(p: Property, rest: seq<Property>, mangler: Mangler)
    requires Printable(p.typ) && AllPrintable(rest)
    ensures AllPrintable([p] + rest)
    ensures PrintEntries([p] + rest) == [Entry(PrintName(p.typ), PrintTree(p.typ, p.name))] + PrintEntries(rest)
    ensures AllMangled([p] + rest, mangler)
         == [Property(mangler(p.name), Mangled(p.typ, mangler))] + AllMangled(rest, mangler)
  {
    assert ([p] + rest)[1..] == rest;
  }

  lemma OneProperty(p: Property, mangler: Mangler)
    requires Printable(p.typ)
    ensures AllPrintable([p]) && PrintEntries([p]) == [Entry(PrintName(p.typ), PrintTree(p.typ, p.name))]
    ensures AllMangled([p], mangler) == [Property(mangler(p.name), Mangled(p.typ, mangler))]
  {
    FirstProperty(p, [], mangler);
    assert [p] + [] == [p];
  }

  // ----- The database -----

  datatype CommandData = CommandData(isGlobal: bool, properties: seq<Property>)

  type CommandInfo = Item<int, string, CommandData>

  datatype ClusterData = ClusterData(attributes: seq<AttributeInfo>, serverToClient: seq<CommandInfo>,
      clientToServer: seq<CommandInfo>)

  type ClusterInfo = Item<int, string, ClusterData>

  datatype Db = Db(clusters: seq<ClusterInfo>, globals: seq<CommandInfo>)

  const EMPTY := Db([], [])

  /** What a loader leaves behind, and whether it got to the end; what was added before a
      failure stays. */
  datatype Loaded<+T> = Loaded(ok: bool, value: T)

  /** number stands for std::stoul with automatic base when it consumes the whole key. */
  type Numbers = string -> Option<nat>

  function LoadCommands(cs: seq<CommandInfo>, isGlobal: bool, entries: seq<Entry>, mangler: Mangler,
      numbers: Numbers): Loaded<seq<CommandInfo>>
    decreases |entries|
  {
    if entries == [] then Loaded(true, cs)
    else
      match (numbers(entries[0].key), ParseProperties(entries[0].tree.children, mangler))
      case (Some(id), Some(ps)) =>
        var next := Added(cs, Item(id, mangler(entries[0].tree.data), CommandData(isGlobal, ps)));
        if id > 255 || next == cs then Loaded(false, cs)
        else LoadCommands(next, isGlobal, entries[1..], mangler, numbers)
      case (_, _) => Loaded(false, cs)
  }

  /** The value of the first child called "type", if there is one. */
  function TypeEntry(entries: seq<Entry>): Option<string> {
    if entries == [] then None
    else if entries[0].key == "type" then Some(entries[0].tree.data)
    else TypeEntry(entries[1..])
  }

  function LoadAttributes(xs: seq<AttributeInfo>, entries: seq<Entry>, mangler: Mangler,
      numbers: Numbers): Loaded<seq<AttributeInfo>>
    decreases |entries|
  {
    if entries == [] then Loaded(true, xs)
    else
      var named := TypeEntry(entries[0].tree.children);
      var typ := if named.Some? then TypeOfName(named.value) else None;
      match numbers(entries[0].key)
      case None => Loaded(false, xs)
      case Some(id) =>
        var next := Added(xs, Item(id, mangler(entries[0].tree.data), typ));
        if id > 0xFFFF || (named.Some? && typ.None?) || next == xs then Loaded(false, xs)
        else LoadAttributes(next, entries[1..], mangler, numbers)
  }

  function LoadCluster(c: ClusterData, entries: seq<Entry>, mangler: Mangler, numbers: Numbers): Loaded<ClusterData>
    decreases |entries|
  {
    if entries == [] then Loaded(true, c)
    else
      var children := entries[0].tree.children;
      var next :=
        if entries[0].key == "attributes" then
          var l := LoadAttributes(c.attributes, children, mangler, numbers);
          Loaded(l.ok, c.(attributes := l.value))
        else if entries[0].key == "commands" && entries[0].tree.data == "serverToClient" then
          var l := LoadCommands(c.serverToClient, false, children, mangler, numbers);
          Loaded(l.ok, c.(serverToClient := l.value))
        else if entries[0].key == "commands" && entries[0].tree.data == "clientToServer" then
          var l := LoadCommands(c.clientToServer, false, children, mangler, numbers);
          Loaded(l.ok, c.(clientToServer := l.value))
        else Loaded(false, c);
      if next.ok then LoadCluster(next.value, entries[1..], mangler, numbers) else next
  }

  function LoadEntry(db: Db, entry: Entry, mangler: Mangler, numbers: Numbers): Loaded<Db> {
    if entry.key == "global" then
      var l := LoadCommands(db.globals, true, entry.tree.children, mangler, numbers);
      Loaded(l.ok, db.(globals := l.value))
    else
      match numbers(entry.key)
      case None => Loaded(false, db)
      case Some(id) =>
        var c := LoadCluster(ClusterData([], [], []), entry.tree.children, mangler, numbers);
        var next := Added(db.clusters, Item(id, mangler(entry.tree.data), c.value));
        if id > 0xFFFF || !c.ok || next == db.clusters then Loaded(false, db)
        else Loaded(true, db.(clusters := next))
  }

  function Load(db: Db, entries: seq<Entry>, mangler: Mangler, numbers: Numbers): Loaded<Db>
    decreases |entries|
  {
    if entries == [] then Loaded(true, db)
    else
      var next := LoadEntry(db, entries[0], mangler, numbers);
      if next.ok then Load(next.value, entries[1..], mangler, numbers) else next
  }

  // ----- What every load keeps -----

  ghost predicate ValidCommands(cs: seq<CommandInfo>, isGlobal: bool) {
    Distinct(cs)
    && forall c | c in cs :: 0 <= c.id <= 255 && c.data.isGlobal == isGlobal && AllPrintable(c.data.properties)
  }

  ghost predicate ValidCluster(c: ClusterData) {
    Cluster(c.attributes).Valid() && ValidCommands(c.serverToClient, false) && ValidCommands(c.clientToServer, false)
  }

  ghost predicate ValidDb(db: Db) {
    Distinct(db.clusters) && ValidCommands(db.globals, true)
    && forall c | c in db.clusters :: 0 <= c.id <= 0xFFFF && ValidCluster(c.data)
  }

  lemma {:induction false} CommandsStayValid(cs: seq<CommandInfo>, isGlobal: bool, entries: seq<Entry>,
      mangler: Mangler, numbers: Numbers)
    requires ValidCommands(cs, isGlobal)
    ensures var l := LoadCommands(cs, isGlobal, entries, mangler, numbers);
      ValidCommands(l.value, isGlobal) && cs <= l.value
    decreases |entries|
  {
    if entries != [] {
      var number, ps := numbers(entries[0].key), ParseProperties(entries[0].tree.children, mangler);
      if number.Some? && ps.Some? {
        ParsedArePrintable(entries[0].tree.children, mangler);
        var item := Item(number.value, mangler(entries[0].tree.data), CommandData(isGlobal, ps.value));
        var next := Added(cs, item);
        AddedAllKeepsIndexes(cs, [item]);
        if number.value <= 255 && next != cs {
          assert next == cs + [item];
          CommandsStayValid(next, isGlobal, entries[1..], mangler, numbers);
        }
      }
    }
  }

  lemma {:induction false} AttributesStayValid(xs: seq<AttributeInfo>, entries: seq<Entry>, mangler: Mangler,
      numbers: Numbers)
    requires Cluster(xs).Valid()
    ensures var l := LoadAttributes(xs, entries, mangler, numbers); Cluster(l.value).Valid() && xs <= l.value
    decreases |entries|
  {
    if entries != [] {
      var number, named := numbers(entries[0].key), TypeEntry(entries[0].tree.children);
      if number.Some? {
        var typ := if named.Some? then TypeOfName(named.value) else None;
        var item := Item(number.value, mangler(entries[0].tree.data), typ);
        var next := Added(xs, item);
        AddedAllKeepsIndexes(xs, [item]);
        if number.value <= 0xFFFF && next != xs {
          assert next == xs + [item];
          AttributesStayValid(next, entries[1..], mangler, numbers);
        }
      }
    }
  }

  lemma {:induction false} ClusterStaysValid(c: ClusterData, entries: seq<Entry>, mangler: Mangler, numbers: Numbers)
    requires ValidCluster(c)
    ensures ValidCluster(LoadCluster(c, entries, mangler, numbers).value)
    decreases |entries|
  {
    hide LoadCommands, LoadAttributes, ValidCommands;
    if entries != [] {
      var children := entries[0].tree.children;
      AttributesStayValid(c.attributes, children, mangler, numbers);
      CommandsStayValid(c.serverToClient, false, children, mangler, numbers);
      CommandsStayValid(c.clientToServer, false, children, mangler, numbers);
      var attributes := LoadAttributes(c.attributes, children, mangler, numbers);
      var server := LoadCommands(c.serverToClient, false, children, mangler, numbers);
      var client := LoadCommands(c.clientToServer, false, children, mangler, numbers);
      if entries[0].key == "attributes" {
        ClusterStaysValid(c.(attributes := attributes.value), entries[1..], mangler, numbers);
      } else if entries[0].key == "commands" && entries[0].tree.data == "serverToClient" {
        ClusterStaysValid(c.(serverToClient := server.value), entries[1..], mangler, numbers);
      } else if entries[0].key == "commands" && entries[0].tree.data == "clientToServer" {
        ClusterStaysValid(c.(clientToServer := client.value), entries[1..], mangler, numbers);
      }
    }
  }

  lemma EntryKeepsDbValid(db: Db, entry: Entry, mangler: Mangler, numbers: Numbers)
    requires ValidDb(db)
    ensures var l := LoadEntry(db, entry, mangler, numbers);
      ValidDb(l.value) && db.clusters <= l.value.clusters && db.globals <= l.value.globals
  {
    hide LoadCommands, LoadCluster, ValidCommands, ValidCluster;
    if entry.key == "global" {
      CommandsStayValid(db.globals, true, entry.tree.children, mangler, numbers);
    } else if numbers(entry.key).Some? {
      EmptyClusterIsValid();
      var c := LoadCluster(ClusterData([], [], []), entry.tree.children, mangler, numbers);
      ClusterStaysValid(ClusterData([], [], []), entry.tree.children, mangler, numbers);
      var item: ClusterInfo := Item(numbers(entry.key).value, mangler(entry.tree.data), c.value);
      AddedAllKeepsIndexes(db.clusters, [item]);
      var next := Added(db.clusters, item);
      if next != db.clusters {
        assert next == db.clusters + [item];
      }
    }
  }

  lemma EmptyClusterIsValid()
    ensures ValidCluster(ClusterData([], [], []))
  {
  }

  /** Main result. Over any number of loads, those that fail halfway included: ids and names
      are unique in every list and in range, global commands are marked as such and no others,
      every schema is in the grammar, and nothing once stored is lost or reordered. */
  lemma {:induction false} LoadsKeepDbValid(db: Db, entries: seq<Entry>, mangler: Mangler, numbers: Numbers)
    requires ValidDb(db)
    ensures var l := Load(db, entries, mangler, numbers);
      ValidDb(l.value) && db.clusters <= l.value.clusters && db.globals <= l.value.globals
    decreases |entries|
  {
    if entries != [] {
      EntryKeepsDbValid(db, entries[0], mangler, numbers);
      var next := LoadEntry(db, entries[0], mangler, numbers);
      if next.ok {
        LoadsKeepDbValid(next.value, entries[1..], mangler, numbers);
      }
    }
  }

  // ----- Looking commands up -----

  const SERVER_TO_CLIENT := 1

  function CommandsOf(db: Db, cluster: int, direction: nat): Option<seq<CommandInfo>>
  {
    match SearchId(db.clusters, cluster)
    case None => None
    case Some(c) => Some(if direction == SERVER_TO_CLIENT then c.data.serverToClient else c.data.clientToServer)
  }

  /** Global names hide those of the cluster. */
  function CommandByName(db: Db, cluster: int, direction: nat, name: string): Option<CommandInfo> {
    if SearchName(db.globals, name).Some? then SearchName(db.globals, name)
    else
      match CommandsOf(db, cluster, direction)
      case None => None
      case Some(cs) => SearchName(cs, name)
  }

  function CommandById(db: Db, cluster: int, id: int, isGlobal: bool, direction: nat): Option<CommandInfo> {
    if isGlobal then SearchId(db.globals, id)
    else
      match CommandsOf(db, cluster, direction)
      case None => None
      case Some(cs) => SearchId(cs, id)
  }

  lemma CommandsOfAreValid(db: Db, cluster: int, direction: nat)
    requires ValidDb(db) && CommandsOf(db, cluster, direction).Some?
    ensures ValidCommands(CommandsOf(db, cluster, direction).value, false)
  {
  }

  /** What is sent by name is received by id as the same command. */
  lemma SentByNameReceivedById(db: Db, cluster: int, direction: nat, name: string)
    requires ValidDb(db) && CommandByName(db, cluster, direction, name).Some?
    ensures var c := CommandByName(db, cluster, direction, name).value;
      c.name == name && CommandById(db, cluster, c.id, c.data.isGlobal, direction) == Some(c)
  {
    var c := CommandByName(db, cluster, direction, name).value;
    if SearchName(db.globals, name).Some? {
      LookupsAreInverse(db.globals, c);
    } else {
      CommandsOfAreValid(db, cluster, direction);
      LookupsAreInverse(CommandsOf(db, cluster, direction).value, c);
    }
  }

  /** The other way round this holds exactly when no global command hides the name. */
  lemma ReceivedByIdSentByName(db: Db, cluster: int, id: int, isGlobal: bool, direction: nat)
    requires ValidDb(db) && CommandById(db, cluster, id, isGlobal, direction).Some?
    ensures var c := CommandById(db, cluster, id, isGlobal, direction).value;
      c.id == id && c.data.isGlobal == isGlobal
      && (CommandByName(db, cluster, direction, c.name) == Some(c)
          <==> (isGlobal || SearchName(db.globals, c.name).None?))
  {
    var c := CommandById(db, cluster, id, isGlobal, direction).value;
    if isGlobal {
      LookupsAreInverse(db.globals, c);
    } else {
      CommandsOfAreValid(db, cluster, direction);
      LookupsAreInverse(CommandsOf(db, cluster, direction).value, c);
    }
  }

  // ----- As it runs -----

  method ParseTypeFromPTree(name: string, tree: PTree, mangler: Mangler) returns (t: Option<Schema>)
    ensures t == ParseType(name, tree, mangler)
    decreases tree, 1, |name|
  {
    hide TypeOfName, ParseProperties;
    var rest := StringStartsWith(name, REPEATED);
    if rest.Some? {
      var element := ParseTypeFromPTree(rest.value, tree, mangler);
      return ArrayOf(0, element);
    }
    rest := StringStartsWith(name, ARR8);
    if rest.Some? {
      var element := ParseTypeFromPTree(rest.value, tree, mangler);
      return ArrayOf(1, element);
    }
    rest := StringStartsWith(name, ARR16);
    if rest.Some? {
      var element := ParseTypeFromPTree(rest.value, tree, mangler);
      return ArrayOf(2, element);
    }
    rest := StringStartsWith(name, ERROR_OR);
    if rest.Some? {
      var success := ParseTypeFromPTree(rest.value, tree, mangler);
      return if success.None? then None else Some(ErrorOrType(success.value));
    }
    if name == OBJECT {
      var ps := ParseObjectTypeFromPTree(tree.children, mangler);
      return if ps.None? then None else Some(ObjectType(ps.value));
    }
    if name == VARIANT {
      return Some(VariantType);
    }
    var dt := TypeOfName(name);
    return if dt.None? then None else Some(DataType(dt.value));
  }

  method ParseObjectTypeFromPTree(entries: seq<Entry>, mangler: Mangler) returns (ps: Option<seq<Property>>)
    ensures ps == ParseProperties(entries, mangler)
    decreases entries, 0, 0
  {
    hide ParseType, ParseProperties;
    var properties: seq<Property> := [];
    assert entries[0..] == entries;
    Prepended(properties, ParseProperties(entries, mangler));
    for i := 0 to |entries|
      invariant ParseProperties(entries, mangler) == Prepend(properties, ParseProperties(entries[i..], mangler))
    {
      assert entries[i..][0] == entries[i] && entries[i..][1..] == entries[i + 1..];
      PropertiesStep(entries[i..], mangler);
      var typ := ParseTypeFromPTree(entries[i].key, entries[i].tree, mangler);
      if typ.None? {
        return None;
      }
      var property := Property(mangler(entries[i].tree.data), typ.value);
      PrependBoth(properties, [property], ParseProperties(entries[i + 1..], mangler));
      properties := properties + [property];
    }
    NoProperties(mangler);
    assert properties + [] == properties;
    return Some(properties);
  }

  function Prepend(front: seq<Property>, ps: Option<seq<Property>>): Option<seq<Property>> {
    if ps.None? then None else Some(front + ps.value)
  }

  lemma Prepended(front: seq<Property>, ps: Option<seq<Property>>)
    requires front == []
    ensures Prepend(front, ps) == ps
  {
    if ps.Some? {
      assert [] + ps.value == ps.value;
    }
  }

  lemma PrependBoth(a: seq<Property>, b: seq<Property>, ps: Option<seq<Property>>)
    ensures Prepend(a, Prepend(b, ps)) == Prepend(a + b, ps)
  {
    if ps.Some? {
      assert a + (b + ps.value) == (a + b) + ps.value;
    }
  }

  lemma PropertiesStep(entries: seq<Entry>, mangler: Mangler)
    requires entries != []
    ensures var t := ParseType(entries[0].key, entries[0].tree, mangler);
      ParseProperties(entries, mangler)
      == if t.None? then None
         else Prepend([Property(mangler(entries[0].tree.data), t.value)], ParseProperties(entries[1..], mangler))
  {
  }

  lemma NoProperties(mangler: Mangler)
    ensures ParseProperties([], mangler) == Some([])
  {
  }

  method ParseCommandListFromPTree(given: seq<CommandInfo>, isGlobal: bool, entries: seq<Entry>, mangler: Mangler,
      numbers: Numbers)
    returns (ok: bool, cs: seq<CommandInfo>)
    ensures Loaded(ok, cs) == LoadCommands(given, isGlobal, entries, mangler, numbers)
  {
    hide ParseProperties;
    cs := given;
    assert entries[0..] == entries;
    for i := 0 to |entries|
      invariant LoadCommands(given, isGlobal, entries, mangler, numbers)
             == LoadCommands(cs, isGlobal, entries[i..], mangler, numbers)
    {
      assert entries[i..][0] == entries[i] && entries[i..][1..] == entries[i + 1..];
      var id := numbers(entries[i].key);
      if id.None? || id.value > 255 {
        return false, cs;
      }
      var ps := ParseObjectTypeFromPTree(entries[i].tree.children, mangler);
      if ps.None? {
        return false, cs;
      }
      var next := Added(cs, Item(id.value, mangler(entries[i].tree.data), CommandData(isGlobal, ps.value)));
      if next == cs {
        return false, cs;
      }
      cs := next;
    }
    return true, cs;
  }

  method ParseArgumentListFromPTree(given: seq<AttributeInfo>, entries: seq<Entry>, mangler: Mangler, numbers: Numbers)
    returns (ok: bool, xs: seq<AttributeInfo>)
    ensures Loaded(ok, xs) == LoadAttributes(given, entries, mangler, numbers)
  {
    hide TypeOfName;
    xs := given;
    assert entries[0..] == entries;
    for i := 0 to |entries|
      invariant LoadAttributes(given, entries, mangler, numbers) == LoadAttributes(xs, entries[i..], mangler, numbers)
    {
      assert entries[i..][0] == entries[i] && entries[i..][1..] == entries[i + 1..];
      var id := numbers(entries[i].key);
      if id.None? || id.value > 0xFFFF {
        return false, xs;
      }
      var named, typ := TypeEntry(entries[i].tree.children), None;
      if named.Some? {
        typ := TypeOfName(named.value);
        if typ.None? {
          return false, xs;
        }
      }
      var next := Added(xs, Item(id.value, mangler(entries[i].tree.data), typ));
      if next == xs {
        return false, xs;
      }
      xs := next;
    }
    return true, xs;
  }

  method ParseClusterInfoFromPTree(entries: seq<Entry>, mangler: Mangler, numbers: Numbers)
    returns (ok: bool, c: ClusterData)
    ensures Loaded(ok, c) == LoadCluster(ClusterData([], [], []), entries, mangler, numbers)
  {
    hide LoadCommands, LoadAttributes;
    c := ClusterData([], [], []);
    assert entries[0..] == entries;
    for i := 0 to |entries|
      invariant LoadCluster(ClusterData([], [], []), entries, mangler, numbers)
             == LoadCluster(c, entries[i..], mangler, numbers)
    {
      assert entries[i..][0] == entries[i] && entries[i..][1..] == entries[i + 1..];
      var section := entries[i];
      if section.key == "attributes" {
        var done, attributes := ParseArgumentListFromPTree(c.attributes, section.tree.children, mangler, numbers);
        c := c.(attributes := attributes);
        if !done {
          return false, c;
        }
      } else if section.key == "commands" {
        if section.tree.data == "serverToClient" {
          var done, cs := ParseCommandListFromPTree(c.serverToClient, false, section.tree.children, mangler, numbers);
          c := c.(serverToClient := cs);
          if !done {
            return false, c;
          }
        } else if section.tree.data == "clientToServer" {
          var done, cs := ParseCommandListFromPTree(c.clientToServer, false, section.tree.children, mangler, numbers);
          c := c.(clientToServer := cs);
          if !done {
            return false, c;
          }
        } else {
          return false, c;
        }
      } else {
        return false, c;
      }
    }
    return true, c;
  }

  class ClusterDb {
    var clusters: seq<ClusterInfo>
    var globals: seq<CommandInfo>

    function Contents(): Db
      reads this
    {
      Db(clusters, globals)
    }

    constructor ()
      ensures Contents() == EMPTY && ValidDb(Contents())
    {
      clusters, globals := [], [];
    }

    /** The lists are filled in place, so a failed load leaves what came before the failure. */
    method ParseFromPTree(entries: seq<Entry>, mangler: Mangler, numbers: Numbers) returns (ok: bool)
      requires ValidDb(Contents())
      modifies this
      ensures ValidDb(Contents()) && Loaded(ok, Contents()) == Load(old(Contents()), entries, mangler, numbers)
    {
      hide LoadCommands, LoadCluster, ValidDb;
      LoadsKeepDbValid(Contents(), entries, mangler, numbers);
      ghost var before := Contents();
      assert entries[0..] == entries;
      for i := 0 to |entries|
        invariant Load(before, entries, mangler, numbers) == Load(Contents(), entries[i..], mangler, numbers)
      {
        assert entries[i..][0] == entries[i] && entries[i..][1..] == entries[i + 1..];
        if entries[i].key == "global" {
          var done, cs := ParseCommandListFromPTree(globals, true, entries[i].tree.children, mangler, numbers);
          globals := cs;
          if !done {
            return false;
          }
        } else {
          var id := numbers(entries[i].key);
          if id.None? || id.value > 0xFFFF {
            return false;
          }
          var done, c := ParseClusterInfoFromPTree(entries[i].tree.children, mangler, numbers);
          if !done {
            return false;
          }
          var next := Added(clusters, Item(id.value, mangler(entries[i].tree.data), c));
          if next == clusters {
            return false;
          }
          clusters := next;
        }
      }
      return true;
    }
  }
}
