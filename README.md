# nodeQuest core in Dafny

nodeQuest is an Obsidian plugin for tabletop campaigns. It creates location,
NPC and faction notes under `basePath/world/…`. Each note starts with a
generated YAML front matter. A new location is linked into its parent's
`children: [...]` list. This project models the string and cross-reference
core of the plugin and proves properties of it:

- `slugify` (`utils/slug.ts`) turns a title into a file-name slug.
- `pathFor` and `ensureScaffold` (`main.ts`) fix where notes go and which folders exist.
- `createLocation`, `createNPC` and `createFaction` render the front matter. Each is a line list joined with `"\n"`.
- `tryAppendChildToParent` (`main.ts`) scans the notes for the first location whose id is the parent id. It rewrites that note's first `children:\s*\[(.*?)\]` match with a callback. The callback splits the list, looks the child up with quotes stripped, pushes it when missing, and joins the list again.
- The order inside `createLocation` is fixed: scaffold, write the note, then patch the parent.

Modules, one file each:

- `wrappers.dfy`: `Option` and `Result`.
- `jstext.dfy`: the JavaScript string built-ins the code relies on, over ASCII. These are `toLowerCase`, `trim` and the `\s` class, `split` on one character, `join`, and integer-to-string. Each comes with its laws (split/join round trips, trim of padded text, number read-back). The module also has `IndexOf`, a helper of the model's own: it finds the `]` that ends the lazy `(.*?)\]` and the colon of a front-matter line.
- `slug.dfy`: `slugify` as its five stages.
- `paths.dfy`: the folder names, the scaffold directories and `pathFor`.
- `lists.dfy`: the inline list notation `["a", "b"]`, both how it is written and how the patcher reads it.
- `templates.dfy`: the three front-matter templates, plus a reader that turns a note back into its entries. The reader is the templates' partner.
- `children.dfy`: the regular expression (a declarative `IsMatch` and the leftmost-match search), the callback, and the patch.
- `vault.dfy`: a value model of the vault (`Store`: folders, created-folder log, notes with their cached `id`/`type`). It holds pure specifications of scaffold, parent linking and the three creations. It also holds the class `NodeQuestPlugin`, whose methods change the vault step by step as the TypeScript does, and are proved equal to those specifications.

The model follows what the code does, including where that is worth knowing:

- The code does not reject an empty slug. A title such as `"!!!"` gives the path `…/Locations/.md` (`Slug.SlugifyNothingKeptExample`).
- The code does not report a missing parent: the scan ends without a change and without a notice (`Vault.AppendChildScope`).
- The children regex runs over the whole note, not just the front matter.
- Duplicates are suppressed through `list.find`, not a set-membership test. So an empty child id next to an empty entry is pushed again (`Children.AddChildEmptyQuirk`).
- In `createLocation` the patch runs after the new note is written. The model gives the new note its cached `id` and `type` at once. Under that assumption, a location whose parent id is its own id is patched itself (`Vault.CreateLocationSelfLink`). The host fills its metadata cache asynchronously, so the program's scan may not see the new note at all.

## Model

| member | source | states |
|---|---|---|
| Slug.Slugify | utils/slug.ts:1-5 | every slug character is `a-z`, `0-9` or `-` (so no upper case and no whitespace survives), no two hyphens are adjacent, and the slug is never longer than the title |
| Slug.DropUnkept | utils/slug.ts:3 | the deletion keeps only `[a-z0-9]`, whitespace and `-`, and never lengthens the text |
| Slug.DropUnkeptEmpty | utils/slug.ts:3 | the deletion leaves nothing exactly when no character of the input is one it keeps |
| Slug.DropUnkeptDeletes | utils/slug.ts:3 | kept text around a run of unkept characters closes up: the run disappears and both sides stay in order |
| Slug.HyphenateSpace | utils/slug.ts:4 | `.replace(/\s+/g, "-")`; never lengthens the text, and its meaning is stated by HyphenateSpaceShape, HyphenateSpaceRun and HyphenateSpaceGap |
| Slug.HyphenateSpaceRun | utils/slug.ts:4 | a non-empty run made only of whitespace becomes a single `-` |
| Slug.HyphenateSpaceShape | utils/slug.ts:4 | after replacing whitespace runs no whitespace is left, the text is empty only if it was empty, and text made only of kept characters becomes slug characters only |
| Slug.HyphenateSpaceGap | utils/slug.ts:4 | a maximal whitespace run between two pieces becomes exactly one `-`, and the pieces are treated independently |
| Slug.HyphenateWords | utils/slug.ts:4 | two whitespace-free words separated by any non-empty run of whitespace become the words joined by one `-` |
| Slug.CollapseHyphens | utils/slug.ts:5 | the result has no `--`, is empty only for empty input, keeps the first character, never grows, and keeps the slug alphabet |
| Slug.CollapseHyphensConcat | utils/slug.ts:5 | hyphen runs on either side of a boundary collapse independently when no run straddles it |
| Slug.CollapseHyphensRun | utils/slug.ts:5 | a non-empty run made only of hyphens becomes a single `-` |
| Slug.CollapseHyphensGap | utils/slug.ts:5 | a maximal hyphen run between two pieces becomes exactly one `-`, and the pieces collapse independently |
| Slug.SlugifyFixesSlugs | utils/slug.ts:1-5 | a string already in the slug alphabet with no `--` is its own slug |
| Slug.SlugifyIdempotent | utils/slug.ts:1-5 | `slugify(slugify(s)) == slugify(s)` for every title |
| Slug.SlugifyKeepsAlnum | utils/slug.ts:2-3 | deleting the hyphens from the slug gives exactly the letters and digits of the lower-cased title, in their order |
| Slug.SlugifyIgnoresCaseAndPadding | utils/slug.ts:2 | leading and trailing whitespace, and ASCII case, do not change the slug |
| Slug.SlugifyEmpty | utils/slug.ts:2-3 | the slug is empty exactly when the trimmed, lower-cased title has no letter, digit, whitespace or hyphen |
| Slug.SlugifyNothingKept | utils/slug.ts:3 | a title none of whose lower-cased characters is kept gives the empty slug |
| Slug.SlugifyNothingKeptExample | utils/slug.ts:3 | `"!!!"` gives `""` |
| Slug.SlugifyTrailingHyphen | utils/slug.ts:2-4 | `"keep !"` gives `"keep-"`: trimming comes before deletion, so a hyphen survives at the end |
| Slug.SlugifyApostrophe | utils/slug.ts:1-5 | `"Eldoria's Gate"` gives `"eldorias-gate"` |
| Slug.SlugifyRunsOfSpace | utils/slug.ts:1-5 | `"  The   Sunken Keep!!"` gives `"the-sunken-keep"` |
| Slug.SlugifyPaddingExample | utils/slug.ts:2 | `slugify("  X ") == slugify("x") == "x"` |
| Paths.ScaffoldDirs | main.ts:108-113 | four directories: the world directory first, then one directory for each kind |
| Paths.ScaffoldDirsDistinct | main.ts:108-113 | the four scaffold directories are pairwise distinct |
| Paths.PathFor | main.ts:121-125 | the path is the kind's directory, `/`, the slug and `.md`, with its length fixed accordingly |
| Paths.PathForInScaffold | main.ts:106-125 | the directory part of every path is one of the scaffold directories of its world |
| Paths.PathForKindsDistinct | main.ts:121-125 | different kinds never share a path, whatever the slugs |
| Paths.PathForSlugInjective | main.ts:121-125 | for the same base, world and kind, equal paths mean equal slugs |
| Paths.PathForWorldsCanMeet | main.ts:121-125 | base and world are joined unescaped: base `a` with world `b/c` and base `a/b` with world `c` give the same path |
| InlineList.StripQuotes | main.ts:239 | deleting quotes leaves no `"` or `'` and never lengthens |
| InlineList.StripQuotesOfQuote | main.ts:239 | quoting a quote-free string and then stripping quotes gives it back |
| InlineList.Quote | main.ts:136 | `"${s}"`; StripQuotesOfQuote undoes it for a quote-free string, and QuoteClean shows a comma-free quoted string is a clean list entry |
| InlineList.Show | main.ts:143 | `[${items.map(a => `"${a}"`).join(", ")}]`, also used at main.ts:176, 178 and 208; ReadShow reads it back as its items, and ShowEmpty gives `[]` for no items |
| InlineList.ParseEntries | main.ts:238 | `inner.trim().length ? inner.split(",").map(s => s.trim()) : []`; ParseEntriesClean and ParseJoin state what it returns |
| InlineList.ParseEntriesClean | main.ts:238 | the list parser returns no entries exactly for blank text; every entry is trimmed and comma-free; it never returns the lone empty entry |
| InlineList.ParseJoin | main.ts:238-240 | joining clean entries with `", "` and parsing again gives the entries back, except the lone empty entry |
| InlineList.ReadShow | main.ts:143 | a rendered list field reads back as its items, for items without commas and quotes |
| Templates.RefValue | main.ts:137 | a reference renders as `null` exactly when the id is falsy (absent or `""`) |
| Templates.RefValueReadBack | main.ts:175 | a reference is `null` exactly for a falsy id, and otherwise reads back as the id with its quotes stripped |
| Templates.ShowEmpty | main.ts:176 | an empty list field renders as `[]` |
| Templates.LocationEntries | main.ts:133-143 | the ten front-matter fields of a location in the source's order; LocationFieldsRead and LocationListsRead state what each one reads back as |
| Templates.NpcEntries | main.ts:170-178 | the eight fields of an NPC; NpcFieldsRead states what they read back as |
| Templates.FactionEntries | main.ts:201-208 | the seven fields of a faction; FactionFieldsRead states what they read back as |
| Templates.RenderLocation | main.ts:132-152 | the location line list joined with `"\n"`; LocationReadBack reads it back as its entries and its sections |
| Templates.RenderNpc | main.ts:169-187 | the NPC line list joined with `"\n"`; NpcReadBack reads it back |
| Templates.RenderFaction | main.ts:200-217 | the faction line list joined with `"\n"`; FactionReadBack reads it back |
| Templates.LocationReadBack | main.ts:132-152 | a location note opens with `---`, holds exactly its ten entries in order, closes with `---` and then has the blank line and the three headings Summary, Details, Sub-locations, each followed by an empty line (for single-line inputs) |
| Templates.NpcReadBack | main.ts:169-187 | the same for an NPC note: its eight entries and the headings Description, Hooks, Connections |
| Templates.FactionReadBack | main.ts:200-217 | the same for a faction note: its seven entries and the headings Mandate, Assets, NPCs |
| Templates.LocationFieldsRead | main.ts:133-141 | `id` and `type: location` identify the note; `parent` is `null` exactly for a falsy parent id and otherwise the quoted id; `tier` reads as the integer `tier ?? 1`, so 0 stays 0; `coords` and `children: []` are always there |
| Templates.LocationListsRead | main.ts:139-143 | `aliases` reads back as the aliases, and `tags` as `ttrpg/location` and the world |
| Templates.NpcFieldsRead | main.ts:171-178 | `id` and `type: npc` identify the note; `location_id` is `null` exactly for a falsy id; `faction_ids` reads back as the list, or is `[]` when absent; `aliases` reads back |
| Templates.FactionFieldsRead | main.ts:202-208 | `id` and `type: faction` identify the note; `hq_location_id` is `null` exactly for a falsy id; `aliases` reads back |
| Children.SkipSpace | main.ts:236 | `\s*` at a position consumes the whole whitespace run there, no more and no less |
| Children.MatchAt | main.ts:236 | what the matcher returns at a position is a match of the regular expression there |
| Children.MatchAtComplete | main.ts:236 | any match at a position is the one the matcher returns: the label fixes both brackets |
| Children.MatchUnique | main.ts:236 | at one position the regular expression matches in at most one way |
| Children.FirstMatchFrom | main.ts:235-236 | a match it returns starts at or after the search position; FirstMatchFromLeftmost shows no match lies between the position and the one returned |
| Children.FirstMatch | main.ts:235-236 | the non-global regex search; FirstMatchSpec and FirstMatchIs state that it is the leftmost match |
| Children.FindEntry | main.ts:239 | `list.find(x => x.replace(/["']/g,"") === childId)` as an index; the index is in range, and FindEntrySpec states its meaning |
| Children.FirstMatchSpec | main.ts:235-236 | the search returns the leftmost match, and nothing exactly when the text has no match |
| Children.FirstMatchIs | main.ts:235-236 | a match with no match to its left is the one the search returns |
| Children.FindEntrySpec | main.ts:239 | `find` returns the first entry whose quote-stripped form is the id, and nothing exactly when there is none |
| Children.AddChild | main.ts:239 | the conditional push; AddChildAppends, AddChildAbsent, AddChildPresent, AddChildStable and AddChildEmptyQuirk state what it does to the entries |
| Children.NewEntries | main.ts:238-239 | the parsed entries after the push; NewEntriesPlain shows they are clean and re-parse to themselves |
| Children.Replacement | main.ts:240 | `children: [${list.join(", ")}]`; ReplacementOfEmpty gives its value for `[]`, and ChildrenCallback computes it step by step |
| Children.ChildrenCallback | main.ts:237-241 | the callback (parse, linear search, conditional push, join) returns `children: [` + the new entries joined by `", "` + `]` |
| Children.AddChildAppends | main.ts:239 | an id that no entry names, quoted or not, is appended, quoted, after the old entries in order |
| Children.AddChildAbsent | main.ts:239 | a missing id is appended, quoted, after the old entries in order, and is then the only entry naming it |
| Children.AddChildPresent | main.ts:239 | an id already listed leaves the entries unchanged (for a non-empty id) |
| Children.AddChildListed | main.ts:239 | after the callback some entry names the id |
| Children.AddChildStable | main.ts:239 | pushing the same non-empty, quote-free id again changes nothing |
| Children.AddChildEmptyQuirk | main.ts:239 | `find` returns the empty entry, which is falsy, so an empty id is pushed even though it is listed |
| Children.ReplacementOfEmpty | main.ts:238-240 | `children: []` becomes `children: ["c"]` |
| Children.Patch | main.ts:235-242 | `content.replace(regex, callback)`; PatchScope, PatchNoMatch, PatchListsChild and PatchIdempotent state its effect |
| Children.Rewrite | main.ts:235-242 | the text with one match replaced by the callback's value; PatchScope shows the patch is this rewrite at the leftmost match |
| Children.PatchScope | main.ts:235-242 | only the leftmost match is replaced by the callback's value; the text before and after it is kept |
| Children.PatchNoMatch | main.ts:235-242 | a text without a match comes back unchanged |
| Children.PatchListsChild | main.ts:235-242 | after the patch, the note's children list is the callback's new entries and names the id |
| Children.PatchIdempotent | main.ts:235-242 | patching twice is patching once, for a non-empty id without `,`, `]` or quotes |
| Vault.Exists | main.ts:115 | `adapter.exists`: a folder or a note path; PathExists computes it by a scan |
| Vault.Scaffold | main.ts:106-119 | the loop over the directories, creating each missing one; ScaffoldSpec, ScaffoldIdempotent, ScaffoldExisting and WorldScaffold state its effect |
| Vault.ScaffoldSpec | main.ts:106-119 | afterwards all four directories exist; notes are untouched; folders only grow, and only by the listed directories; each folder created is listed, was missing before, and is created once |
| Vault.ScaffoldIdempotent | main.ts:106-119 | scaffolding twice is scaffolding once |
| Vault.ScaffoldExisting | main.ts:114-118 | when every directory already exists nothing is created |
| Vault.WorldScaffold | main.ts:106-119 | when no note occupies a scaffold path, the folders afterwards are the old folders plus the four world directories |
| Vault.FirstParent | main.ts:228-232 | the index of the note the scan stops at, in range when present; FirstParentSpec states which note it is |
| Vault.AppendChild | main.ts:225-248 | the scan, then the patch of that note's content; AppendChildScope, AppendChildPatches, AppendChildIdempotent and AppendChildLists state its effect |
| Vault.FirstParentSpec | main.ts:228-232 | the scan stops at the first note whose cached `id` is the parent id and `type` is `location`, and finds nothing exactly when there is none |
| Vault.AppendChildScope | main.ts:225-248 | at most one note changes, and only in content: the first parent; folders, paths, ids, kinds and the number of notes are kept; without a parent nothing changes |
| Vault.AppendChildPatches | main.ts:233-243 | the parent note's content becomes its patched content |
| Vault.AppendChildIdempotent | main.ts:225-248 | linking the same child twice is linking it once, for a non-empty id without `,`, `]` and quotes |
| Vault.AppendChildLists | main.ts:233-243 | after linking, the parent's children list names the child when the parent has a children list |
| Vault.LocationCreated | main.ts:127-162 | scaffold, path, rejection of a taken path, write, then the patch for a truthy parent; CreateLocationOutcome, CreateLocationLinks and CreateLocationSelfLink state its effect |
| Vault.NpcCreated | main.ts:164-193 | scaffold, path, rejection of a taken path, write; CreateNpcOutcome states its effect |
| Vault.FactionCreated | main.ts:195-223 | the same for factions; CreateFactionOutcome states its effect |
| Vault.CreateLocationOutcome | main.ts:127-159 | the scaffold always stays; creation fails with the path exactly when something exists there, and then no note changes and the parent is not patched; on success the result is the path and the new note is appended there |
| Vault.AppendChildAfterWrite | main.ts:155-159 | writing the new note before the scan changes no other note's patch, unless the new note is itself the first parent |
| Vault.CreateLocationLinks | main.ts:154-159 | without a truthy parent id no existing note changes; with one, the existing notes are linked exactly as the scan links them, and the new note follows them |
| Vault.CreateLocationSelfLink | main.ts:155-159 | a location whose parent id is its own id, with no earlier parent, is patched itself, because the patch runs after the write |
| Vault.CreatedLocationReads | main.ts:133-135 | the `id` and `type` the vault caches for the new note are those its front matter states |
| Vault.CreateNpcOutcome | main.ts:164-193 | creation fails with the path exactly when something exists there, and then no note changes; otherwise only the NPC note is appended; no other note is touched |
| Vault.CreateFactionOutcome | main.ts:195-223 | the same for a faction note |
| Vault.NodeQuestPlugin.PathExists | main.ts:115 | the existence test is true exactly for a folder or a note path |
| Vault.NodeQuestPlugin.EnsureScaffold | main.ts:106-119 | the loop over the four directories, creating only the missing ones, leaves the vault as the scaffold specification says |
| Vault.NodeQuestPlugin.TryAppendChildToParent | main.ts:225-248 | the scan with its early `break` leaves the vault as the linking specification says |
| Vault.NodeQuestPlugin.ReplaceChildren | main.ts:235-242 | the regex replace with the callback gives the patched content |
| Vault.NodeQuestPlugin.CreateLocation | main.ts:127-162 | scaffold, write, then patch, with the id minted from `"loc"` and the slug; the vault and the result are the creation specification's |
| Vault.NodeQuestPlugin.CreateNpc | main.ts:164-193 | the same for NPCs, minted from `"npc"` |
| Vault.NodeQuestPlugin.CreateFaction | main.ts:195-223 | the same for factions, minted from `"fac"` |
| JsText.Lower | utils/slug.ts:2 | ASCII `toLowerCase`; LowerIdempotent, LowerConcat and LowerFixes show it is idempotent, works character by character and leaves text without `A`-`Z` alone |
| JsText.Trim | utils/slug.ts:2 | `trim`; the result never starts or ends with whitespace, and TrimSplits shows it removes only outer whitespace |
| JsText.TrimSplits | utils/slug.ts:2 | the input is the trim with a whitespace-only prefix and suffix around it |
| JsText.Split | main.ts:238 | `split(",")` gives at least one piece; SplitParts, JoinSplit and SplitJoin state what the pieces are |
| JsText.SplitParts | main.ts:238 | no piece holds the separator, and every character of a piece comes from the input |
| JsText.JoinSplit | main.ts:238-240 | joining the pieces of a split with the separator gives the input back |
| JsText.SplitJoin | main.ts:238-240 | splitting a join recovers the parts when no part holds the separator |
| JsText.Join | main.ts:240 | `join`, also used at main.ts:152; JoinSplit and SplitJoin are its round trips |
| JsText.IntToString | main.ts:138 | an integer written in decimal; IntToStringRoundTrip reads it back |
| JsText.IntToStringRoundTrip | main.ts:138 | an integer rendered in decimal reads back as the same integer, with an optional leading `-` and digits only |

## Left out

- `tsId` (in `utils/ids.ts`, which is not part of this model) is the parameter `mint` of the create methods. It is the plain `id` argument of the specification functions. Its uniqueness is not modelled.
- Host calls are an in-memory `Store`.
  - `adapter.exists` is true for a folder or a note path.
  - `createFolder` adds a folder.
  - `vault.create` fails on an existing path with `Err(PathTaken)`; that check belongs to the host.
  - `read` and `modify` are the note's content.
  - The metadata cache is taken as each note's `id` and `kind` fields; the host's YAML parser is not modelled.
  - A note written by `createLocation` gets its cached `id` and `type` at once. The host fills the cache asynchronously, which is not modelled.
- Vault.CreateLocationSelfLink: the self-patch follows from the cache assumption above. In the program the scan at main.ts:228-232 may run before the cache knows the new note, and then finds nothing.
  - Host failures other than an existing path (permissions, write errors) are not modelled.
- `getMarkdownFiles` order is the order of `Store.docs`, and new notes go last. The host's real listing order is not known.
- `Notice`, `openFile`, the modals, the Svelte components, `SvelteModal` (main.ts:251-260), command registration (main.ts:14-36) and settings loading are user interface and are left out.
- `settings.ts` is a settings tab. `basePath` is a constructor argument and the world is an input.
- `type.ts` holds only type declarations; the model follows the field names main.ts writes.
- The async sequencing and the lost update between two concurrent patches of one parent are not modelled; the model runs one action at a time.
- Unicode is not modelled. `toLowerCase` and `\s` are modelled on ASCII: the whitespace set is space, tab, line feed, vertical tab, form feed and carriage return.
- Titles, worlds, ids and aliases are interpolated unescaped. There is no claim that the output is well-formed YAML. The read-back lemmas require single-line values, and list items without commas and quotes.
- `tier` is an optional integer. A non-integer JavaScript number is not modelled.
- JsText.IntToString: every integer is written in plain decimal. JavaScript writes a number of magnitude 10^21 or more in exponent form (`1e+21`), and cannot hold integers beyond 2^53 exactly. So the model agrees with `${tier ?? 1}` only for exactly representable tiers below 10^21 in magnitude.
- Templates.LocationFieldsRead and JsText.IntToStringRoundTrip: the tier read-back holds for the model's decimal rendering. For tiers of magnitude 10^21 or more, or not exactly representable, the program writes something else.
- A `null` `aliases` argument, which crashes `aliases.map`, is not modelled; aliases are always a sequence.
- Slug.Slugify: the guarantees hold over the ASCII model of `toLowerCase` and `\s`, not for arbitrary Unicode titles.
- Children.PatchIdempotent: the id must be non-empty, because `find` treats a found empty entry as not found and pushes the empty id on every patch. Whitespace around the id needs no exclusion. The id must only be free of `,`, `]` and quotes.
