/**
 * The three front-matter templates of main.ts (`createLocation`,
 * `createNPC`, `createFaction`). Each note is a list of lines joined with
 * `"\n"`: a `---` fence, one `key: value` line per field, a closing `---`,
 * a blank line and three section headings, each followed by an empty line.
 * A reader for exactly this layout is the partner the renderers are proved
 * against: reading a rendered note gives back its fields and its sections.
 */
module Templates {
  import opened Wrappers
  import opened JsText
  import opened InlineList

  /** The field bundle `createLocation` destructures; absent values are `None`. */
  datatype LocationFields = LocationFields(
    name: string, world: string, parentId: Option<string>, tier: Option<int>, aliases: seq<string>)

  /** The field bundle of `createNPC`; `factionIds` may be `null`, which `factionIds||[]` treats as empty. */
  datatype NpcFields = NpcFields(
    name: string, world: string, locationId: Option<string>, factionIds: Option<seq<string>>, aliases: seq<string>)

  /** The field bundle of `createFaction`. */
  datatype FactionFields = FactionFields(
    name: string, world: string, locationId: Option<string>, aliases: seq<string>)

  /** One front-matter line `key: value`. */
  datatype Entry = Entry(key: string, value: string)

  /** JavaScript truthiness of an optional string: absent and `""` are falsy. */
  predicate Truthy(id: Option<string>) {
    id.Some? && id.value != ""
  }

  /** `${id ? `"${id}"` : "null"}`. */
  function RefValue(id: Option<string>): (v: string)
    ensures v == "null" <==> !Truthy(id)
  {
    if Truthy(id) then
      assert Quote(id.value)[0] != "null"[0];
      Quote(id.value)
    else "null"
  }

  /** The front-matter fields of a location, in the order main.ts:133-143 writes them. */
  function LocationEntries(id: string, f: LocationFields): seq<Entry> {
    [Entry("id", id),
     Entry("type", "location"),
     Entry("title", Quote(f.name)),
     Entry("parent", RefValue(f.parentId)),
     Entry("tier", IntToString(f.tier.GetOr(1))),
     Entry("tags", Show(["ttrpg/location", f.world])),
     Entry("coords", "{ x: null, y: null, map: null }"),
     Entry("children", "[]"),
     Entry("world", Quote(f.world)),
     Entry("aliases", Show(f.aliases))]
  }

  /** The front-matter fields of an NPC (main.ts:170-178). */
  function NpcEntries(id: string, f: NpcFields): seq<Entry> {
    [Entry("id", id),
     Entry("type", "npc"),
     Entry("title", Quote(f.name)),
     Entry("world", Quote(f.world)),
     Entry("location_id", RefValue(f.locationId)),
     Entry("faction_ids", Show(f.factionIds.GetOr([]))),
     Entry("tags", Show(["ttrpg/npc", f.world])),
     Entry("aliases", Show(f.aliases))]
  }

  /** The front-matter fields of a faction (main.ts:201-208). */
  function FactionEntries(id: string, f: FactionFields): seq<Entry> {
    [Entry("id", id),
     Entry("type", "faction"),
     Entry("title", Quote(f.name)),
     Entry("world", Quote(f.world)),
     Entry("hq_location_id", RefValue(f.locationId)),
     Entry("tags", Show(["ttrpg/faction", f.world])),
     Entry("aliases", Show(f.aliases))]
  }

  /** What follows the closing fence: a blank line, then each heading followed by an empty line. */
  function Sections(h1: string, h2: string, h3: string): seq<string> {
    ["", "## " + h1, "", "## " + h2, "", "## " + h3, ""]
  }

  const LocationSections: seq<string> := Sections("Summary", "Details", "Sub-locations")
  const NpcSections: seq<string> := Sections("Description", "Hooks", "Connections")
  const FactionSections: seq<string> := Sections("Mandate", "Assets", "NPCs")

  function EntryLine(e: Entry): string {
    e.key + ": " + e.value
  }

  function EntryLines(entries: seq<Entry>): (lines: seq<string>)
    ensures |lines| == |entries|
  {
    seq(|entries|, i requires 0 <= i < |entries| => EntryLine(entries[i]))
  }

  /** The line list of a note: fenced front matter, then the sections. */
  function NoteLines(entries: seq<Entry>, sections: seq<string>): seq<string> {
    ["---"] + EntryLines(entries) + ["---"] + sections
  }

  function RenderLocation(id: string, f: LocationFields): string {
    Join(NoteLines(LocationEntries(id, f), LocationSections), "\n")
  }

  function RenderNpc(id: string, f: NpcFields): string {
    Join(NoteLines(NpcEntries(id, f), NpcSections), "\n")
  }

  function RenderFaction(id: string, f: FactionFields): string {
    Join(NoteLines(FactionEntries(id, f), FactionSections), "\n")
  }

  // ---- the reader ----

  /** Splits `key: value` at the first colon, which must be followed by a space. */
  function ReadEntry(line: string): Option<Entry> {
    match IndexOf(line, ':')
    case None => None
    case Some(k) =>
      if k + 1 < |line| && line[k + 1] == ' ' then Some(Entry(line[..k], line[k + 2..])) else None
  }

  /** Reads entry lines up to the closing fence; returns the entries and the lines after the fence. */
  function ReadBlock(lines: seq<string>): Option<(seq<Entry>, seq<string>)> {
    if lines == [] then None
    else if lines[0] == "---" then Some(([], lines[1..]))
    else match ReadEntry(lines[0])
      case None => None
      case Some(e) =>
        match ReadBlock(lines[1..])
        case None => None
        case Some(rest) => Some(([e] + rest.0, rest.1))
  }

  /** Reads a note: its front-matter entries and the lines after the front matter. */
  function ReadNote(doc: string): Option<(seq<Entry>, seq<string>)> {
    var lines := Split(doc, '\n');
    if lines[0] == "---" then ReadBlock(lines[1..]) else None
  }

  /** The value of the first entry with the given key. */
  function Lookup(entries: seq<Entry>, key: string): Option<string> {
    if entries == [] then None
    else if entries[0].key == key then Some(entries[0].value)
    else Lookup(entries[1..], key)
  }

  /** Looking up the key of entry `i` finds entry `i` when no earlier entry has that key. */
  lemma {:induction false} LookupAt(entries: seq<Entry>, i: nat)
    requires i < |entries|
    requires forall j :: 0 <= j < i ==> entries[j].key != entries[i].key
    ensures Lookup(entries, entries[i].key) == Some(entries[i].value)
  {
    if i > 0 {
      LookupAt(entries[1..], i - 1);
    }
  }

  /** The fields of a note, or none when it cannot be read. */
  function FrontMatter(doc: string): seq<Entry> {
    match ReadNote(doc)
    case Some(r) => r.0
    case None => []
  }

  // ---- reading what was rendered ----

  lemma ReadEntryLine(e: Entry)
    requires ':' !in e.key
    ensures ReadEntry(EntryLine(e)) == Some(e)
  {
    var line := EntryLine(e);
    assert line[..|e.key|] == e.key;
    assert line[|e.key|] == ':';
    assert line[|e.key| + 1] == ' ';
    assert line[|e.key| + 2..] == e.value;
  }

  /** Keys are plain words: no colon, no line break. */
  predicate KeysOk(entries: seq<Entry>) {
    forall i :: 0 <= i < |entries| ==> PlainKey(entries[i].key)
  }

  /** A key holds neither a colon nor a line break. */
  predicate PlainKey(key: string) {
    ':' !in key && '\n' !in key
  }

  // The fixed keys, a few at a time.

  lemma ShortKeysPlain()
    ensures PlainKey("id") && PlainKey("type") && PlainKey("title") && PlainKey("tier") && PlainKey("tags")
  {
  }

  lemma LocationKeysPlain()
    ensures PlainKey("parent") && PlainKey("coords") && PlainKey("children")
  {
  }

  lemma SharedKeysPlain()
    ensures PlainKey("world") && PlainKey("aliases")
  {
  }

  lemma NpcKeysPlain()
    ensures PlainKey("location_id") && PlainKey("faction_ids")
  {
  }

  lemma FactionKeysPlain()
    ensures PlainKey("hq_location_id")
  {
  }

  lemma {:induction false} ReadBlockLines(entries: seq<Entry>, sections: seq<string>)
    requires KeysOk(entries)
    ensures ReadBlock(EntryLines(entries) + ["---"] + sections) == Some((entries, sections))
  {
    var lines := EntryLines(entries) + ["---"] + sections;
    if entries == [] {
      assert lines == ["---"] + sections;
    } else {
      var e := entries[0];
      assert lines[0] == EntryLine(e);
      assert ':' in EntryLine(e) by {
        assert EntryLine(e)[|e.key|] == ':';
      }
      ReadEntryLine(e);
      assert lines[1..] == EntryLines(entries[1..]) + ["---"] + sections;
      ReadBlockLines(entries[1..], sections);
      assert entries == [e] + entries[1..];
    }
  }

  predicate SingleLine(s: string) {
    '\n' !in s
  }

  predicate ValuesOk(entries: seq<Entry>) {
    forall i :: 0 <= i < |entries| ==> SingleLine(entries[i].value)
  }

  predicate SectionsOk(sections: seq<string>) {
    forall i :: 0 <= i < |sections| ==> SingleLine(sections[i])
  }

  predicate NoteOk(entries: seq<Entry>, sections: seq<string>) {
    KeysOk(entries) && ValuesOk(entries) && SectionsOk(sections)
  }

  lemma EntryLineSingle(e: Entry)
    requires SingleLine(e.key) && SingleLine(e.value)
    ensures SingleLine(EntryLine(e))
  {
  }

  /** A rendered note reads back as its entries and its sections, when no line holds a line break. */
  lemma ReadRendered(entries: seq<Entry>, sections: seq<string>)
    requires NoteOk(entries, sections)
    ensures ReadNote(Join(NoteLines(entries, sections), "\n")) == Some((entries, sections))
  {
    var lines := NoteLines(entries, sections);
    forall k | 0 <= k < |lines| ensures '\n' !in lines[k] {
      if 1 <= k <= |entries| {
        EntryLineSingle(entries[k - 1]);
      }
    }
    SplitJoin(lines, '\n');
    assert lines[1..] == EntryLines(entries) + ["---"] + sections;
    ReadBlockLines(entries, sections);
  }

  // ---- single-line inputs ----

  lemma ShowSingleLine(items: seq<string>)
    requires forall k :: 0 <= k < |items| ==> SingleLine(items[k])
    ensures SingleLine(Show(items))
  {
    JoinExcludes(QuoteAll(items), ", ", '\n');
  }

  lemma IntToStringSingleLine(i: int)
    ensures SingleLine(IntToString(i))
  {
    IntToStringRoundTrip(i);
  }

  predicate LocationInputOk(id: string, f: LocationFields) {
    SingleLine(id) && SingleLine(f.name) && SingleLine(f.world) &&
    (f.parentId.Some? ==> SingleLine(f.parentId.value)) &&
    (forall k :: 0 <= k < |f.aliases| ==> SingleLine(f.aliases[k]))
  }

  lemma QuoteSingleLine(s: string)
    requires SingleLine(s)
    ensures SingleLine(Quote(s))
  {
  }

  lemma RefValueSingleLine(id: Option<string>)
    requires id.Some? ==> SingleLine(id.value)
    ensures SingleLine(RefValue(id))
  {
  }

  /** The section lines of the three templates hold no line break. */
  lemma SectionsPlain()
    ensures SectionsOk(LocationSections) && SectionsOk(NpcSections) && SectionsOk(FactionSections)
  {
  }

  /** The fixed values of the templates hold no line break. */
  lemma FixedValuesPlain()
    ensures SingleLine("{ x: null, y: null, map: null }")
    ensures SingleLine("location") && SingleLine("npc") && SingleLine("faction") && SingleLine("[]")
  {
  }

  lemma LocationValuesOk(id: string, f: LocationFields)
    requires LocationInputOk(id, f)
    ensures ValuesOk(LocationEntries(id, f))
  {
    FixedValuesPlain();
    QuoteSingleLine(f.name);
    RefValueSingleLine(f.parentId);
    IntToStringSingleLine(f.tier.GetOr(1));
    ShowSingleLine(["ttrpg/location", f.world]);
    QuoteSingleLine(f.world);
    ShowSingleLine(f.aliases);
  }

  /** The keys of a location note are plain words. */
  lemma LocationLayoutOk(id: string, f: LocationFields)
    ensures KeysOk(LocationEntries(id, f))
  {
    ShortKeysPlain();
    LocationKeysPlain();
    SharedKeysPlain();
  }

  /** The location note reads back as exactly its fields and its three sections. */
  lemma LocationReadBack(id: string, f: LocationFields)
    requires LocationInputOk(id, f)
    ensures ReadNote(RenderLocation(id, f)) == Some((LocationEntries(id, f), LocationSections))
  {
    LocationValuesOk(id, f);
    LocationLayoutOk(id, f);
    SectionsPlain();
    ReadRendered(LocationEntries(id, f), LocationSections);
  }

  predicate NpcInputOk(id: string, f: NpcFields) {
    SingleLine(id) && SingleLine(f.name) && SingleLine(f.world) &&
    (f.locationId.Some? ==> SingleLine(f.locationId.value)) &&
    (f.factionIds.Some? ==> forall k :: 0 <= k < |f.factionIds.value| ==> SingleLine(f.factionIds.value[k])) &&
    (forall k :: 0 <= k < |f.aliases| ==> SingleLine(f.aliases[k]))
  }

  lemma NpcValuesOk(id: string, f: NpcFields)
    requires NpcInputOk(id, f)
    ensures ValuesOk(NpcEntries(id, f))
  {
    FixedValuesPlain();
    QuoteSingleLine(f.name);
    QuoteSingleLine(f.world);
    RefValueSingleLine(f.locationId);
    ShowSingleLine(f.factionIds.GetOr([]));
    ShowSingleLine(["ttrpg/npc", f.world]);
    ShowSingleLine(f.aliases);
  }

  /** The keys of a NPC note are plain words. */
  lemma NpcLayoutOk(id: string, f: NpcFields)
    ensures KeysOk(NpcEntries(id, f))
  {
    ShortKeysPlain();
    SharedKeysPlain();
    NpcKeysPlain();
  }

  /** The NPC note reads back as exactly its fields and its three sections. */
  lemma NpcReadBack(id: string, f: NpcFields)
    requires NpcInputOk(id, f)
    ensures ReadNote(RenderNpc(id, f)) == Some((NpcEntries(id, f), NpcSections))
  {
    NpcValuesOk(id, f);
    NpcLayoutOk(id, f);
    SectionsPlain();
    ReadRendered(NpcEntries(id, f), NpcSections);
  }

  predicate FactionInputOk(id: string, f: FactionFields) {
    SingleLine(id) && SingleLine(f.name) && SingleLine(f.world) &&
    (f.locationId.Some? ==> SingleLine(f.locationId.value)) &&
    (forall k :: 0 <= k < |f.aliases| ==> SingleLine(f.aliases[k]))
  }

  lemma FactionValuesOk(id: string, f: FactionFields)
    requires FactionInputOk(id, f)
    ensures ValuesOk(FactionEntries(id, f))
  {
    FixedValuesPlain();
    QuoteSingleLine(f.name);
    QuoteSingleLine(f.world);
    RefValueSingleLine(f.locationId);
    ShowSingleLine(["ttrpg/faction", f.world]);
    ShowSingleLine(f.aliases);
  }

  /** The keys of a faction note are plain words. */
  lemma FactionLayoutOk(id: string, f: FactionFields)
    ensures KeysOk(FactionEntries(id, f))
  {
    ShortKeysPlain();
    SharedKeysPlain();
    FactionKeysPlain();
  }

  /** The faction note reads back as exactly its fields and its three sections. */
  lemma FactionReadBack(id: string, f: FactionFields)
    requires FactionInputOk(id, f)
    ensures ReadNote(RenderFaction(id, f)) == Some((FactionEntries(id, f), FactionSections))
  {
    FactionValuesOk(id, f);
    FactionLayoutOk(id, f);
    SectionsPlain();
    ReadRendered(FactionEntries(id, f), FactionSections);
  }

  // ---- what the fields say ----

  /** Every key of a location note is looked up to its own entry (the keys are distinct). */
  lemma LocationKeyFinds(id: string, f: LocationFields, i: nat)
    requires i < |LocationEntries(id, f)|
    ensures var es := LocationEntries(id, f); Lookup(es, es[i].key) == Some(es[i].value)
  {
    var es := LocationEntries(id, f);
    if i == 0 { LookupAt(es, 0); }
    else if i == 1 { LookupAt(es, 1); }
    else if i == 2 { LookupAt(es, 2); }
    else if i == 3 { LookupAt(es, 3); }
    else if i == 4 { LookupAt(es, 4); }
    else if i == 5 { LookupAt(es, 5); }
    else if i == 6 { LookupAt(es, 6); }
    else if i == 7 { LookupAt(es, 7); }
    else if i == 8 { LookupAt(es, 8); }
    else { LookupAt(es, 9); }
  }

  /** Every key of a NPC note is looked up to its own entry (the keys are distinct). */
  lemma NpcKeyFinds(id: string, f: NpcFields, i: nat)
    requires i < |NpcEntries(id, f)|
    ensures var es := NpcEntries(id, f); Lookup(es, es[i].key) == Some(es[i].value)
  {
    var es := NpcEntries(id, f);
    if i == 0 { LookupAt(es, 0); }
    else if i == 1 { LookupAt(es, 1); }
    else if i == 2 { LookupAt(es, 2); }
    else if i == 3 { LookupAt(es, 3); }
    else if i == 4 { LookupAt(es, 4); }
    else if i == 5 { LookupAt(es, 5); }
    else if i == 6 { LookupAt(es, 6); }
    else { LookupAt(es, 7); }
  }

  /** Every key of a faction note is looked up to its own entry (the keys are distinct). */
  lemma FactionKeyFinds(id: string, f: FactionFields, i: nat)
    requires i < |FactionEntries(id, f)|
    ensures var es := FactionEntries(id, f); Lookup(es, es[i].key) == Some(es[i].value)
  {
    var es := FactionEntries(id, f);
    if i == 0 { LookupAt(es, 0); }
    else if i == 1 { LookupAt(es, 1); }
    else if i == 2 { LookupAt(es, 2); }
    else if i == 3 { LookupAt(es, 3); }
    else if i == 4 { LookupAt(es, 4); }
    else if i == 5 { LookupAt(es, 5); }
    else { LookupAt(es, 6); }
  }

  predicate ReadsAsInt(v: string, i: int) {
    (IsDigits(v) || (|v| >= 2 && v[0] == '-' && IsDigits(v[1..]))) && ParseInt(v) == i
  }

  /** A reference field is `null` exactly when the id is falsy, and otherwise reads back as the id. */
  lemma RefValueReadBack(id: Option<string>)
    ensures RefValue(id) == "null" <==> !Truthy(id)
    ensures Truthy(id) && Unquoted(id.value) ==> StripQuotes(RefValue(id)) == id.value
  {
    if Truthy(id) && Unquoted(id.value) {
      StripQuotesOfQuote(id.value);
    }
  }

  /**
   * In a location note: `id` and `type` identify it, `parent` is `null` exactly for a falsy
   * parent id and otherwise the quoted id, `tier` reads as `tier ?? 1` (so 0 stays 0), and
   * `children: []` and the empty coordinates are always there.
   */
  lemma LocationFieldsRead(id: string, f: LocationFields)
    requires LocationInputOk(id, f)
    ensures var fm := FrontMatter(RenderLocation(id, f));
      Lookup(fm, "id") == Some(id) &&
      Lookup(fm, "type") == Some("location") &&
      (Lookup(fm, "parent") == Some("null") <==> !Truthy(f.parentId)) &&
      (Truthy(f.parentId) ==> Lookup(fm, "parent") == Some(Quote(f.parentId.value))) &&
      Lookup(fm, "tier").Some? && ReadsAsInt(Lookup(fm, "tier").value, f.tier.GetOr(1)) &&
      Lookup(fm, "coords") == Some("{ x: null, y: null, map: null }") &&
      Lookup(fm, "children") == Some("[]")
  {
    LocationReadBack(id, f);
    IntToStringRoundTrip(f.tier.GetOr(1));
    LocationKeyFinds(id, f, 0);
    LocationKeyFinds(id, f, 1);
    LocationKeyFinds(id, f, 3);
    LocationKeyFinds(id, f, 4);
    LocationKeyFinds(id, f, 6);
    LocationKeyFinds(id, f, 7);
  }

  /** The lists of a location note read back as the aliases and as the two tags. */
  lemma LocationListsRead(id: string, f: LocationFields)
    requires LocationInputOk(id, f)
    requires forall k :: 0 <= k < |f.aliases| ==> ',' !in f.aliases[k] && Unquoted(f.aliases[k])
    requires ',' !in f.world && Unquoted(f.world)
    ensures var fm := FrontMatter(RenderLocation(id, f));
      Lookup(fm, "aliases").Some? && ReadList(Lookup(fm, "aliases").value) == Some(f.aliases) &&
      Lookup(fm, "tags").Some? && ReadList(Lookup(fm, "tags").value) == Some(["ttrpg/location", f.world])
  {
    LocationReadBack(id, f);
    LocationKeyFinds(id, f, 5);
    LocationKeyFinds(id, f, 9);
    ReadShow(f.aliases);
    var tags := ["ttrpg/location", f.world];
    assert ',' !in tags[0] && Unquoted(tags[0]) by { TagsPlain(); }
    ReadShow(tags);
  }

  /** In an NPC note: `id` and `type` identify it, `location_id` is `null` exactly for a falsy id, and `faction_ids` reads back as the list, or as `[]` when it was absent. */
  lemma NpcFieldsRead(id: string, f: NpcFields)
    requires NpcInputOk(id, f)
    requires f.factionIds.Some? ==>
      forall k :: 0 <= k < |f.factionIds.value| ==> ',' !in f.factionIds.value[k] && Unquoted(f.factionIds.value[k])
    requires forall k :: 0 <= k < |f.aliases| ==> ',' !in f.aliases[k] && Unquoted(f.aliases[k])
    ensures var fm := FrontMatter(RenderNpc(id, f));
      Lookup(fm, "id") == Some(id) &&
      Lookup(fm, "type") == Some("npc") &&
      (Lookup(fm, "location_id") == Some("null") <==> !Truthy(f.locationId)) &&
      Lookup(fm, "faction_ids").Some? &&
      ReadList(Lookup(fm, "faction_ids").value) == Some(if f.factionIds.Some? then f.factionIds.value else []) &&
      (f.factionIds.None? ==> Lookup(fm, "faction_ids") == Some("[]")) &&
      Lookup(fm, "aliases").Some? && ReadList(Lookup(fm, "aliases").value) == Some(f.aliases)
  {
    NpcReadBack(id, f);
    NpcKeyFinds(id, f, 0);
    NpcKeyFinds(id, f, 1);
    NpcKeyFinds(id, f, 4);
    NpcKeyFinds(id, f, 5);
    NpcKeyFinds(id, f, 7);
    ShowEmpty();
    ReadShow(f.factionIds.GetOr([]));
    ReadShow(f.aliases);
  }

  /** In a faction note: `id` and `type` identify it, `hq_location_id` is `null` exactly for a falsy id, and the aliases read back. */
  lemma FactionFieldsRead(id: string, f: FactionFields)
    requires FactionInputOk(id, f)
    requires forall k :: 0 <= k < |f.aliases| ==> ',' !in f.aliases[k] && Unquoted(f.aliases[k])
    ensures var fm := FrontMatter(RenderFaction(id, f));
      Lookup(fm, "id") == Some(id) &&
      Lookup(fm, "type") == Some("faction") &&
      (Lookup(fm, "hq_location_id") == Some("null") <==> !Truthy(f.locationId)) &&
      Lookup(fm, "aliases").Some? && ReadList(Lookup(fm, "aliases").value) == Some(f.aliases)
  {
    FactionReadBack(id, f);
    FactionKeyFinds(id, f, 0);
    FactionKeyFinds(id, f, 1);
    FactionKeyFinds(id, f, 4);
    FactionKeyFinds(id, f, 6);
    ReadShow(f.aliases);
  }

  /** The fixed tags hold no comma and no quote, so they read back as written. */
  lemma TagsPlain()
    ensures ',' !in "ttrpg/location" && Unquoted("ttrpg/location")
  {
  }

  /** An empty list field renders as `[]`. */
  lemma ShowEmpty()
    ensures Show([]) == "[]"
  {
  }
}
