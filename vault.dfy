/**
 * The note-creating side of the plugin (main.ts): the folder scaffold, the
 * three `create*` commands and the parent patch of `tryAppendChildToParent`.
 * The host vault is modelled as an in-memory store of folders and markdown
 * files; the plugin object holds it and updates it in place. Each method is
 * proved against a function on the store's abstract value, and the
 * properties the commands promise are lemmas about those functions.
 */
module Vault {
  import opened Wrappers
  import opened JsText
  import opened InlineList
  import opened Paths
  import opened Slug
  import opened Templates
  import opened Children

  /**
   * A markdown file: its path, the `id` and `type` the metadata cache reports for its
   * front matter (absent when there is none or it is not a string), and its content.
   */
  datatype Doc = Doc(path: string, id: Option<string>, kind: Option<string>, content: string)

  /**
   * What the plugin sees of the vault: the folders that exist, the folders it asked the
   * host to create (in order), and the markdown files in listing order.
   */
  datatype Store = Store(folders: set<string>, created: seq<string>, docs: seq<Doc>)

  /** Why `vault.create` rejects a new note. */
  datatype CreateError = PathTaken(path: string)

  /** `adapter.exists(p)`: a folder or a file is already at `p`. */
  predicate Exists(s: Store, p: string) {
    p in s.folders || exists n :: 0 <= n < |s.docs| && s.docs[n].path == p
  }

  // ---- ensureScaffold ----

  /** What `ensureScaffold` leaves behind: each listed folder is created when nothing exists at its path when the loop reaches it. */
  function Scaffold(s: Store, dirs: seq<string>): Store
    decreases |dirs|
  {
    if dirs == [] then s
    else
      var next := if Exists(s, dirs[0]) then s
        else s.(folders := s.folders + {dirs[0]}, created := s.created + [dirs[0]]);
      Scaffold(next, dirs[1..])
  }

  /**
   * After the scaffold every listed path exists; no file is touched; the existing folders
   * stay and the only new folders are listed ones; every folder it creates was missing
   * (nothing is created twice) and is recorded once.
   */
  lemma {:induction false} ScaffoldSpec(s: Store, dirs: seq<string>)
    ensures var t := Scaffold(s, dirs);
      (forall d :: d in dirs ==> Exists(t, d)) &&
      t.docs == s.docs &&
      s.folders <= t.folders &&
      (forall d :: d in t.folders ==> d in s.folders || d in dirs) &&
      |s.created| <= |t.created| && t.created[..|s.created|] == s.created &&
      (forall n :: |s.created| <= n < |t.created| ==> t.created[n] in dirs && !Exists(s, t.created[n])) &&
      (forall n, m :: |s.created| <= n < m < |t.created| ==> t.created[n] != t.created[m])
    decreases |dirs|
  {
    if dirs != [] {
      var d := dirs[0];
      var next := if Exists(s, d) then s
        else s.(folders := s.folders + {d}, created := s.created + [d]);
      ScaffoldSpec(next, dirs[1..]);
      var t := Scaffold(s, dirs);
      assert t == Scaffold(next, dirs[1..]);
      assert Exists(next, d);
      ExistsGrows(next, t, d);
      forall x | x in dirs ensures Exists(t, x) {
        if x != d {
          assert x in dirs[1..];
        }
      }
      forall n | |s.created| <= n < |t.created| ensures t.created[n] in dirs && !Exists(s, t.created[n]) {
        if n < |next.created| {
          assert next.created == s.created + [d] && t.created[n] == next.created[n];
        } else {
          NotExistsShrinks(s, next, t.created[n]);
        }
      }
      forall n, m | |s.created| <= n < m < |t.created| ensures t.created[n] != t.created[m] {
        if n < |next.created| {
          assert t.created[n] == d && Exists(next, d);
        }
      }
    }
  }

  /** A path that exists keeps existing once the folders only grow and the files stay. */
  lemma ExistsGrows(s: Store, t: Store, p: string)
    requires s.folders <= t.folders && s.docs == t.docs && Exists(s, p)
    ensures Exists(t, p)
  {
  }

  /** A path missing after a step that only adds folders was missing before it. */
  lemma NotExistsShrinks(s: Store, t: Store, p: string)
    requires s.folders <= t.folders && s.docs == t.docs && !Exists(t, p)
    ensures !Exists(s, p)
  {
  }

  /** Running the scaffold a second time creates nothing. */
  lemma {:induction false} ScaffoldIdempotent(s: Store, dirs: seq<string>)
    ensures Scaffold(Scaffold(s, dirs), dirs) == Scaffold(s, dirs)
  {
    ScaffoldSpec(s, dirs);
    ScaffoldExisting(Scaffold(s, dirs), dirs);
  }

  /** When every listed path already exists, the scaffold changes nothing. */
  lemma {:induction false} ScaffoldExisting(s: Store, dirs: seq<string>)
    requires forall d :: d in dirs ==> Exists(s, d)
    ensures Scaffold(s, dirs) == s
    decreases |dirs|
  {
    if dirs != [] {
      assert dirs[0] in dirs;
      forall d | d in dirs[1..] ensures Exists(s, d) {
        assert d in dirs;
      }
      ScaffoldExisting(s, dirs[1..]);
    }
  }

  /**
   * A world's scaffold, when no file sits at any of its four paths, adds exactly the four
   * folders to the existing ones.
   */
  lemma WorldScaffold(s: Store, base: string, world: string)
    requires forall n :: 0 <= n < |s.docs| ==> s.docs[n].path !in ScaffoldDirs(base, world)
    ensures Scaffold(s, ScaffoldDirs(base, world)).folders == s.folders + set d | d in ScaffoldDirs(base, world)
  {
    var dirs := ScaffoldDirs(base, world);
    var t := Scaffold(s, dirs);
    ScaffoldSpec(s, dirs);
    forall d | d in dirs ensures d in t.folders {
      assert Exists(t, d);
    }
  }

  // ---- tryAppendChildToParent ----

  /** `fm?.id === parentId && fm?.type === "location"`. */
  predicate IsParent(d: Doc, parentId: string) {
    d.id == Some(parentId) && d.kind == Some("location")
  }

  /** The first file in listing order that the scan stops at. */
  function FirstParent(docs: seq<Doc>, parentId: string): (r: Option<nat>)
    ensures r.Some? ==> r.value < |docs|
  {
    if docs == [] then None
    else if IsParent(docs[0], parentId) then Some(0)
    else match FirstParent(docs[1..], parentId)
      case Some(n) => Some(n + 1)
      case None => None
  }

  /** `FirstParent` is the first matching file, and is absent exactly when no file matches. */
  lemma {:induction false} FirstParentSpec(docs: seq<Doc>, parentId: string)
    ensures var r := FirstParent(docs, parentId);
      (r.Some? ==>
         r.value < |docs| && IsParent(docs[r.value], parentId) &&
         (forall n :: 0 <= n < r.value ==> !IsParent(docs[n], parentId))) &&
      (r.None? <==> forall n :: 0 <= n < |docs| ==> !IsParent(docs[n], parentId))
  {
    if docs != [] && !IsParent(docs[0], parentId) {
      FirstParentSpec(docs[1..], parentId);
      var r := FirstParent(docs, parentId);
      forall n | 0 < n < |docs| ensures docs[n] == docs[1..][n - 1] { }
    }
  }

  /** A matching file with no match before it is the one the scan stops at. */
  lemma FirstParentAt(docs: seq<Doc>, parentId: string, n: nat)
    requires n <= |docs|
    requires forall m :: 0 <= m < n ==> !IsParent(docs[m], parentId)
    requires n < |docs| ==> IsParent(docs[n], parentId)
    ensures FirstParent(docs, parentId) == if n < |docs| then Some(n) else None
  {
    FirstParentSpec(docs, parentId);
  }

  /** The files after the scan: the first parent location, if any, has its children list patched. */
  function AppendChild(s: Store, parentId: string, childId: string): Store {
    match FirstParent(s.docs, parentId)
    case None => s
    case Some(n) =>
      FirstParentSpec(s.docs, parentId);
      s.(docs := s.docs[n := s.docs[n].(content := Patch(s.docs[n].content, childId))])
  }

  /**
   * The scan changes at most one file, the first parent location, and only its content;
   * folders and every path, id and type stay; with no parent nothing changes.
   */
  lemma AppendChildScope(s: Store, parentId: string, childId: string)
    ensures var t := AppendChild(s, parentId, childId);
      t.folders == s.folders && t.created == s.created && |t.docs| == |s.docs| &&
      (forall n :: 0 <= n < |s.docs| ==>
         t.docs[n].path == s.docs[n].path && t.docs[n].id == s.docs[n].id && t.docs[n].kind == s.docs[n].kind) &&
      (forall n :: 0 <= n < |s.docs| && t.docs[n] != s.docs[n] ==> FirstParent(s.docs, parentId) == Some(n)) &&
      (FirstParent(s.docs, parentId).None? ==> t == s)
  {
    FirstParentSpec(s.docs, parentId);
  }

  /** The parent that is patched gets the patched content. */
  lemma AppendChildPatches(s: Store, parentId: string, childId: string, n: nat)
    requires FirstParent(s.docs, parentId) == Some(n)
    ensures var t := AppendChild(s, parentId, childId);
      n < |t.docs| && t.docs[n].content == Patch(s.docs[n].content, childId)
  {
    FirstParentSpec(s.docs, parentId);
  }

  /** Linking the same child twice is linking it once, for a non-empty id without `,`, `]` and quotes. */
  lemma AppendChildIdempotent(s: Store, parentId: string, childId: string)
    requires childId != "" && ',' !in childId && ']' !in childId && Unquoted(childId)
    ensures AppendChild(AppendChild(s, parentId, childId), parentId, childId) == AppendChild(s, parentId, childId)
  {
    var t := AppendChild(s, parentId, childId);
    AppendChildScope(s, parentId, childId);
    FirstParentSpec(s.docs, parentId);
    match FirstParent(s.docs, parentId)
    case None =>
    case Some(n) =>
      FirstParentAt(t.docs, parentId, n);
      PatchIdempotent(s.docs[n].content, childId);
  }

  /** After linking, the parent's children list names the child when the parent has one. */
  lemma AppendChildLists(s: Store, parentId: string, childId: string, n: nat)
    requires ',' !in childId && ']' !in childId && Unquoted(childId)
    requires FirstParent(s.docs, parentId) == Some(n)
    requires FirstMatch(s.docs[n].content).Some?
    ensures var t := AppendChild(s, parentId, childId);
      n < |t.docs| && ChildList(t.docs[n].content).Some? &&
      exists m :: 0 <= m < |ChildList(t.docs[n].content).value| && StripQuotes(ChildList(t.docs[n].content).value[m]) == childId
  {
    AppendChildPatches(s, parentId, childId, n);
    var text := s.docs[n].content;
    FirstMatchSpec(text);
    var w := FirstMatch(text).value;
    PatchListsChild(text, childId, w.0, w.1, w.2);
  }

  // ---- createLocation / createNPC / createFaction ----

  /**
   * `createLocation`: the slug and the minted id, the scaffold, the note at its path (rejected
   * when something is there), then, only for a truthy parent id and only once the note is
   * written, the parent patch. The result is the new note's path. The new note carries its
   * cached `id` and `type` from the moment it is written: the model takes the metadata cache
   * to be up to date when the scan runs.
   */
  function LocationCreated(s: Store, base: string, id: string, f: LocationFields): (Store, Result<string, CreateError>) {
    var slug := Slugify(f.name);
    var scaffolded := Scaffold(s, ScaffoldDirs(base, f.world));
    var path := PathFor(base, f.world, Location, slug);
    if Exists(scaffolded, path) then (scaffolded, Err(PathTaken(path)))
    else
      var written := scaffolded.(docs := scaffolded.docs + [Doc(path, Some(id), Some("location"), RenderLocation(id, f))]);
      (if Truthy(f.parentId) then AppendChild(written, f.parentId.value, id) else written, Ok(path))
  }

  /** `createNPC`: the scaffold, then the note at its path; no other file is touched. */
  function NpcCreated(s: Store, base: string, id: string, f: NpcFields): (Store, Result<string, CreateError>) {
    var scaffolded := Scaffold(s, ScaffoldDirs(base, f.world));
    var path := PathFor(base, f.world, Npc, Slugify(f.name));
    if Exists(scaffolded, path) then (scaffolded, Err(PathTaken(path)))
    else (scaffolded.(docs := scaffolded.docs + [Doc(path, Some(id), Some("npc"), RenderNpc(id, f))]), Ok(path))
  }

  /** `createFaction`: the scaffold, then the note at its path; no other file is touched. */
  function FactionCreated(s: Store, base: string, id: string, f: FactionFields): (Store, Result<string, CreateError>) {
    var scaffolded := Scaffold(s, ScaffoldDirs(base, f.world));
    var path := PathFor(base, f.world, Faction, Slugify(f.name));
    if Exists(scaffolded, path) then (scaffolded, Err(PathTaken(path)))
    else (scaffolded.(docs := scaffolded.docs + [Doc(path, Some(id), Some("faction"), RenderFaction(id, f))]), Ok(path))
  }

  /**
   * A rejected location leaves every file as it was (the parent is not patched), while the
   * scaffold stays; an accepted one is at the path of its kind and slug.
   */
  lemma CreateLocationOutcome(s: Store, base: string, id: string, f: LocationFields)
    ensures var (t, r) := LocationCreated(s, base, id, f);
      var path := PathFor(base, f.world, Location, Slugify(f.name));
      var scaffolded := Scaffold(s, ScaffoldDirs(base, f.world));
      t.folders == scaffolded.folders && t.created == scaffolded.created &&
      (r == Err(PathTaken(path)) <==> Exists(scaffolded, path)) &&
      (r.Err? ==> t.docs == s.docs) &&
      (r.Ok? ==> r.value == path && |t.docs| == |s.docs| + 1 && t.docs[|s.docs|].path == path)
  {
    var scaffolded := Scaffold(s, ScaffoldDirs(base, f.world));
    ScaffoldSpec(s, ScaffoldDirs(base, f.world));
    var path := PathFor(base, f.world, Location, Slugify(f.name));
    if !Exists(scaffolded, path) {
      var written := scaffolded.(docs := scaffolded.docs + [Doc(path, Some(id), Some("location"), RenderLocation(id, f))]);
      if Truthy(f.parentId) {
        AppendChildScope(written, f.parentId.value, id);
      }
    }
  }

  /**
   * Appending a note before the scan changes nothing for the other files, unless the new note
   * is itself the first parent (no earlier file is one and it matches).
   */
  lemma AppendChildAfterWrite(s: Store, doc: Doc, parentId: string, childId: string)
    requires FirstParent(s.docs, parentId).Some? || !IsParent(doc, parentId)
    ensures AppendChild(s.(docs := s.docs + [doc]), parentId, childId).docs == AppendChild(s, parentId, childId).docs + [doc]
  {
    var docs := s.docs + [doc];
    FirstParentSpec(s.docs, parentId);
    match FirstParent(s.docs, parentId)
    case Some(n) =>
      FirstParentAt(docs, parentId, n);
    case None =>
      FirstParentAt(docs, parentId, |docs|);
  }

  /**
   * An accepted location is appended after the existing files. Without a truthy parent id no
   * existing file changes; with one, the existing files are linked as the scan links them
   * (the new note is the last file, so the scan reaches it only when no earlier file matches).
   */
  lemma CreateLocationLinks(s: Store, base: string, id: string, f: LocationFields)
    requires LocationCreated(s, base, id, f).1.Ok?
    ensures var t := LocationCreated(s, base, id, f).0;
      var doc := Doc(PathFor(base, f.world, Location, Slugify(f.name)), Some(id), Some("location"), RenderLocation(id, f));
      (!Truthy(f.parentId) ==> t.docs == s.docs + [doc]) &&
      (Truthy(f.parentId) && (FirstParent(s.docs, f.parentId.value).Some? || f.parentId.value != id) ==>
         t.docs == AppendChild(s, f.parentId.value, id).docs + [doc])
  {
    var dirs := ScaffoldDirs(base, f.world);
    var scaffolded := Scaffold(s, dirs);
    ScaffoldSpec(s, dirs);
    var doc := Doc(PathFor(base, f.world, Location, Slugify(f.name)), Some(id), Some("location"), RenderLocation(id, f));
    if Truthy(f.parentId) && (FirstParent(s.docs, f.parentId.value).Some? || f.parentId.value != id) {
      AppendChildAfterWrite(scaffolded, doc, f.parentId.value, id);
      assert AppendChild(scaffolded, f.parentId.value, id).docs == AppendChild(s, f.parentId.value, id).docs;
    }
  }

  /**
   * With the new note's cache entry in place when the scan runs, and the patch running after
   * the write, a location whose parent id is its own id and that has no earlier parent is
   * patched itself.
   */
  lemma CreateLocationSelfLink(s: Store, base: string, id: string, f: LocationFields)
    requires LocationCreated(s, base, id, f).1.Ok?
    requires f.parentId == Some(id) && id != "" && FirstParent(s.docs, id).None?
    ensures var t := LocationCreated(s, base, id, f).0;
      |t.docs| == |s.docs| + 1 && t.docs[|s.docs|].content == Patch(RenderLocation(id, f), id)
  {
    var dirs := ScaffoldDirs(base, f.world);
    var scaffolded := Scaffold(s, dirs);
    ScaffoldSpec(s, dirs);
    var doc := Doc(PathFor(base, f.world, Location, Slugify(f.name)), Some(id), Some("location"), RenderLocation(id, f));
    var written := scaffolded.(docs := s.docs + [doc]);
    FirstParentSpec(s.docs, id);
    FirstParentAt(written.docs, id, |s.docs|);
  }

  /** The metadata the store records for a new location is what its rendered front matter says. */
  lemma CreatedLocationReads(id: string, f: LocationFields)
    requires LocationInputOk(id, f)
    ensures var fm := FrontMatter(RenderLocation(id, f));
      Lookup(fm, "id") == Some(id) && Lookup(fm, "type") == Some("location")
  {
    LocationFieldsRead(id, f);
  }

  /** A rejected NPC leaves the files as they were; an accepted one only adds its note after them. */
  lemma CreateNpcOutcome(s: Store, base: string, id: string, f: NpcFields)
    ensures var (t, r) := NpcCreated(s, base, id, f);
      var scaffolded := Scaffold(s, ScaffoldDirs(base, f.world));
      var path := PathFor(base, f.world, Npc, Slugify(f.name));
      t.folders == scaffolded.folders &&
      (r == Err(PathTaken(path)) <==> Exists(scaffolded, path)) &&
      (r.Err? ==> t.docs == s.docs) &&
      (r.Ok? ==> r.value == path && t.docs == s.docs + [Doc(path, Some(id), Some("npc"), RenderNpc(id, f))])
  {
    ScaffoldSpec(s, ScaffoldDirs(base, f.world));
  }

  /** A rejected faction leaves the files as they were; an accepted one only adds its note after them. */
  lemma CreateFactionOutcome(s: Store, base: string, id: string, f: FactionFields)
    ensures var (t, r) := FactionCreated(s, base, id, f);
      var scaffolded := Scaffold(s, ScaffoldDirs(base, f.world));
      var path := PathFor(base, f.world, Faction, Slugify(f.name));
      t.folders == scaffolded.folders &&
      (r == Err(PathTaken(path)) <==> Exists(scaffolded, path)) &&
      (r.Err? ==> t.docs == s.docs) &&
      (r.Ok? ==> r.value == path && t.docs == s.docs + [Doc(path, Some(id), Some("faction"), RenderFaction(id, f))])
  {
    ScaffoldSpec(s, ScaffoldDirs(base, f.world));
  }

  // ---- the plugin object ----

  /** The plugin: its `basePath` setting and the vault it writes to. */
  class NodeQuestPlugin {
    const basePath: string
    var folders: set<string>
    var created: seq<string>
    var docs: seq<Doc>

    function State(): Store
      reads this
    {
      Store(folders, created, docs)
    }

    constructor (basePath: string, folders: set<string>, docs: seq<Doc>)
      ensures this.basePath == basePath && State() == Store(folders, [], docs)
    {
      this.basePath := basePath;
      this.folders := folders;
      this.created := [];
      this.docs := docs;
    }

    /** `adapter.exists(p)`. */
    method PathExists(p: string) returns (b: bool)
      ensures b == Exists(State(), p)
    {
      b := p in folders;
      var n := 0;
      while n < |docs| && !b
        invariant 0 <= n <= |docs|
        invariant b == (p in folders || exists m :: 0 <= m < n && docs[m].path == p)
      {
        b := docs[n].path == p;
        n := n + 1;
      }
    }

    /** `ensureScaffold(world)`: creates each of the four folders that does not exist yet. */
    method EnsureScaffold(world: string)
      modifies this
      ensures State() == Scaffold(old(State()), ScaffoldDirs(basePath, world))
    {
      var dirs := ScaffoldDirs(basePath, world);
      var i := 0;
      while i < |dirs|
        invariant 0 <= i <= |dirs|
        invariant Scaffold(State(), dirs[i..]) == Scaffold(old(State()), dirs)
      {
        var present := PathExists(dirs[i]);
        assert dirs[i..][1..] == dirs[i + 1..];
        if !present {
          folders := folders + {dirs[i]};
          created := created + [dirs[i]];
        }
        i := i + 1;
      }
    }

    /**
     * `tryAppendChildToParent(parentId, childId)`: patches the children list of the first
     * location whose id is `parentId` and stops there.
     */
    method TryAppendChildToParent(parentId: string, childId: string)
      modifies this
      ensures State() == AppendChild(old(State()), parentId, childId)
    {
      var n := 0;
      while n < |docs|
        invariant 0 <= n <= |docs| && State() == old(State())
        invariant forall m :: 0 <= m < n ==> !IsParent(docs[m], parentId)
      {
        if IsParent(docs[n], parentId) {
          FirstParentAt(docs, parentId, n);
          var updated := ReplaceChildren(docs[n].content, childId);
          docs := docs[n := docs[n].(content := updated)];
          return;
        }
        n := n + 1;
      }
      FirstParentAt(docs, parentId, n);
    }

    /** `content.replace(/children:\s*\[(.*?)\]/s, callback)`: the callback's value in place of the leftmost match. */
    static method ReplaceChildren(content: string, childId: string) returns (updated: string)
      ensures updated == Patch(content, childId)
    {
      updated := content;
      var found := FirstMatch(content);
      if found.Some? {
        var (i, k, e) := found.value;
        assert IsMatch(content, i, k, e);
        var replacement := ChildrenCallback(content[k + 1..e], childId);
        updated := content[..i] + replacement + content[e + 1..];
        assert updated == Rewrite(content, i, k, e, childId);
      }
    }

    /** `createLocation`, with `id` the value `tsId("loc", slug)` mints. */
    method CreateLocation(f: LocationFields, mint: (string, string) -> string) returns (r: Result<string, CreateError>)
      modifies this
      ensures (State(), r) == LocationCreated(old(State()), basePath, mint("loc", Slugify(f.name)), f)
    {
      var slug := Slugify(f.name);
      var id := mint("loc", slug);
      EnsureScaffold(f.world);
      var fm := RenderLocation(id, f);
      var path := PathFor(basePath, f.world, Location, slug);
      var taken := PathExists(path);
      if taken {
        return Err(PathTaken(path));
      }
      docs := docs + [Doc(path, Some(id), Some("location"), fm)];
      if Truthy(f.parentId) {
        TryAppendChildToParent(f.parentId.value, id);
      }
      r := Ok(path);
    }

    /** `createNPC`, with `id` the value `tsId("npc", slug)` mints. */
    method CreateNpc(f: NpcFields, mint: (string, string) -> string) returns (r: Result<string, CreateError>)
      modifies this
      ensures (State(), r) == NpcCreated(old(State()), basePath, mint("npc", Slugify(f.name)), f)
    {
      var slug := Slugify(f.name);
      var id := mint("npc", slug);
      EnsureScaffold(f.world);
      var fm := RenderNpc(id, f);
      var path := PathFor(basePath, f.world, Npc, slug);
      var taken := PathExists(path);
      if taken {
        return Err(PathTaken(path));
      }
      docs := docs + [Doc(path, Some(id), Some("npc"), fm)];
      r := Ok(path);
    }

    /** `createFaction`, with `id` the value `tsId("fac", slug)` mints. */
    method CreateFaction(f: FactionFields, mint: (string, string) -> string) returns (r: Result<string, CreateError>)
      modifies this
      ensures (State(), r) == FactionCreated(old(State()), basePath, mint("fac", Slugify(f.name)), f)
    {
      var slug := Slugify(f.name);
      var id := mint("fac", slug);
      EnsureScaffold(f.world);
      var fm := RenderFaction(id, f);
      var path := PathFor(basePath, f.world, Faction, slug);
      var taken := PathExists(path);
      if taken {
        return Err(PathTaken(path));
      }
      docs := docs + [Doc(path, Some(id), Some("faction"), fm)];
      r := Ok(path);
    }
  }
}
