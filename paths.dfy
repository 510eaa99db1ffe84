/**
 * Where the plugin puts things (main.ts `pathFor` and the directory list of
 * `ensureScaffold`). Every world lives under `{basePath}/{world}` with one
 * sub-folder per entity kind, and a note is `{kindFolder}/{slug}.md`.
 */
module Paths {

  /** The three entity kinds `pathFor` distinguishes. */
  datatype Kind = Location | Npc | Faction

  /** The sub-folder of a world that holds the notes of one kind. */
  function Folder(kind: Kind): string {
    match kind
    case Location => "Locations"
    case Npc => "NPCs"
    case Faction => "Factions"
  }

  function WorldDir(base: string, world: string): string {
    base + "/" + world
  }

  function KindDir(base: string, world: string, kind: Kind): string {
    WorldDir(base, world) + "/" + Folder(kind)
  }

  /** The directories `ensureScaffold` walks, in its order: the world folder, then one folder per kind. */
  function ScaffoldDirs(base: string, world: string): (dirs: seq<string>)
    ensures |dirs| == 4
    ensures dirs[0] == WorldDir(base, world)
    ensures forall kind: Kind :: KindDir(base, world, kind) in dirs[1..]
  {
    [WorldDir(base, world),
     KindDir(base, world, Location),
     KindDir(base, world, Npc),
     KindDir(base, world, Faction)]
  }

  /** No directory is listed twice (the four have four different lengths). */
  lemma ScaffoldDirsDistinct(base: string, world: string)
    ensures var dirs := ScaffoldDirs(base, world);
      forall i, j :: 0 <= i < j < |dirs| ==> dirs[i] != dirs[j]
  {
    var n := |WorldDir(base, world)|;
    var dirs := ScaffoldDirs(base, world);
    assert |dirs[0]| == n && |dirs[1]| == n + 10 && |dirs[2]| == n + 5 && |dirs[3]| == n + 9;
  }

  /** `pathFor(world, kind, slug)` with `basePath` from the settings: the note sits in its kind's folder and is named after the slug. */
  function PathFor(base: string, world: string, kind: Kind, slug: string): (path: string)
    ensures var dir := KindDir(base, world, kind);
      |path| == |dir| + 1 + |slug| + 3 &&
      path[..|dir|] == dir && path[|dir|] == '/' &&
      path[|dir| + 1..|path| - 3] == slug && path[|path| - 3..] == ".md"
  {
    KindDir(base, world, kind) + "/" + slug + ".md"
  }

  /** The directory part of every note path is one of the scaffold directories. */
  lemma PathForInScaffold(base: string, world: string, kind: Kind, slug: string)
    ensures var path := PathFor(base, world, kind, slug);
      exists k :: 1 <= k < 4 && path == ScaffoldDirs(base, world)[k] + "/" + slug + ".md"
  {
    var dirs := ScaffoldDirs(base, world);
    match kind
    case Location => assert PathFor(base, world, kind, slug) == dirs[1] + "/" + slug + ".md";
    case Npc => assert PathFor(base, world, kind, slug) == dirs[2] + "/" + slug + ".md";
    case Faction => assert PathFor(base, world, kind, slug) == dirs[3] + "/" + slug + ".md";
  }

  /** Within one world, notes of different kinds never share a path, whatever their slugs. */
  lemma PathForKindsDistinct(base: string, world: string, k1: Kind, k2: Kind, s1: string, s2: string)
    requires k1 != k2
    ensures PathFor(base, world, k1, s1) != PathFor(base, world, k2, s2)
  {
    var n := |WorldDir(base, world)| + 1;
    var p1, p2 := PathFor(base, world, k1, s1), PathFor(base, world, k2, s2);
    assert p1[n] == Folder(k1)[0];
    assert p2[n] == Folder(k2)[0];
  }

  /** Within one world and kind, the path determines the slug. */
  lemma PathForSlugInjective(base: string, world: string, kind: Kind, s1: string, s2: string)
    requires PathFor(base, world, kind, s1) == PathFor(base, world, kind, s2)
    ensures s1 == s2
  {
  }

  /** Different (base, world) pairs can still meet: the path does not determine the world when a name contains `/`. */
  lemma PathForWorldsCanMeet()
    ensures PathFor("a", "b/c", Npc, "x") == PathFor("a/b", "c", Npc, "x")
  {
  }
}
