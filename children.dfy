/**
 * The children patch of `tryAppendChildToParent` (main.ts): the parent note's
 * content goes through `content.replace(/children:\s*\[(.*?)\]/s, callback)`.
 * The regular expression is non-global, so only its leftmost match is
 * rewritten. `\s*` is greedy and the group is lazy with `.` matching line breaks,
 * so a match at `i` is the label `children:`, the run of whitespace after it,
 * a `[` right after that run, and everything up to the first `]` after it.
 * The callback splits the bracketed text into entries, appends the quoted
 * child id unless `list.find` returns a truthy entry whose quote-stripped
 * form is the id, and writes the list back joined by `", "`.
 */
module Children {
  import opened Wrappers
  import opened JsText
  import opened InlineList

  const Label: string := "children:"

  // ---- the regular expression ----

  /** `/children:\s*\[(.*?)\]/s` matches at `i`, with its `[` at `k` and its `]` at `e`. */
  predicate IsMatch(text: string, i: nat, k: nat, e: nat) {
    i + |Label| <= k < e < |text| &&
    text[i..i + |Label|] == Label &&
    AllSpace(text[i + |Label|..k]) && text[k] == '[' &&
    text[e] == ']' && ']' !in text[k + 1..e]
  }

  /** The end of the whitespace run starting at `j`. */
  function SkipSpace(text: string, j: nat): (k: nat)
    requires j <= |text|
    ensures j <= k <= |text| && AllSpace(text[j..k])
    ensures k < |text| ==> !IsSpace(text[k])
    decreases |text| - j
  {
    if j < |text| && IsSpace(text[j]) then
      var k := SkipSpace(text, j + 1);
      assert text[j..k] == [text[j]] + text[j + 1..k];
      k
    else j
  }

  /** The match at `i`, if there is one: the positions of its brackets. */
  function MatchAt(text: string, i: nat): (r: Option<(nat, nat)>)
    ensures r.Some? ==> IsMatch(text, i, r.value.0, r.value.1)
  {
    if i + |Label| <= |text| && text[i..i + |Label|] == Label then
      var k := SkipSpace(text, i + |Label|);
      if k < |text| && text[k] == '[' then
        match IndexOf(text[k + 1..], ']')
        case Some(d) =>
          assert text[k + 1..k + 1 + d] == text[k + 1..][..d];
          Some((k, k + 1 + d))
        case None => None
      else None
    else None
  }

  /** A match at `i` is the one `MatchAt` finds: the label fixes the brackets. */
  lemma MatchAtComplete(text: string, i: nat, k: nat, e: nat)
    requires IsMatch(text, i, k, e)
    ensures MatchAt(text, i) == Some((k, e))
  {
    SkipSpaceAt(text, i + |Label|, k);
    var rest := text[k + 1..];
    assert rest[..e - k - 1] == text[k + 1..e];
    IndexOfAt(rest, ']', e - k - 1);
  }

  /** A whitespace run ending before a non-space character is the run `SkipSpace` skips. */
  lemma SkipSpaceAt(text: string, j: nat, k: nat)
    requires j <= k < |text| && AllSpace(text[j..k]) && !IsSpace(text[k])
    ensures SkipSpace(text, j) == k
  {
    var r := SkipSpace(text, j);
    var run, skipped := text[j..k], text[j..r];
    assert forall x :: j <= x < k ==> text[x] == run[x - j];
    assert forall x :: j <= x < r ==> text[x] == skipped[x - j];
  }

  /** A matched position determines the brackets. */
  lemma MatchUnique(text: string, i: nat, k1: nat, e1: nat, k2: nat, e2: nat)
    requires IsMatch(text, i, k1, e1) && IsMatch(text, i, k2, e2)
    ensures k1 == k2 && e1 == e2
  {
    MatchAtComplete(text, i, k1, e1);
    MatchAtComplete(text, i, k2, e2);
  }

  /** The leftmost match at or after `p`, as the label position and the two brackets. */
  function FirstMatchFrom(text: string, p: nat): (r: Option<(nat, nat, nat)>)
    ensures r.Some? ==> p <= r.value.0 && IsMatch(text, r.value.0, r.value.1, r.value.2)
    decreases |text| - p
  {
    if p + |Label| > |text| then None
    else match MatchAt(text, p)
      case Some(m) => Some((p, m.0, m.1))
      case None => FirstMatchFrom(text, p + 1)
  }

  /** What `String.prototype.replace` with a non-global regular expression rewrites. */
  function FirstMatch(text: string): Option<(nat, nat, nat)> {
    FirstMatchFrom(text, 0)
  }

  /** No match at or after `p` lies left of the one `FirstMatchFrom` returns, and it returns one whenever one exists. */
  lemma {:induction false} FirstMatchFromLeftmost(text: string, p: nat)
    ensures forall i: nat, k: nat, e: nat :: p <= i && IsMatch(text, i, k, e) ==>
      FirstMatchFrom(text, p).Some? && FirstMatchFrom(text, p).value.0 <= i
    decreases |text| - p
  {
    if p + |Label| <= |text| && MatchAt(text, p).None? {
      FirstMatchFromLeftmost(text, p + 1);
      forall k: nat, e: nat | IsMatch(text, p, k, e) ensures false {
        MatchAtComplete(text, p, k, e);
      }
    }
  }

  /** `FirstMatch` is the leftmost match in the whole text, and is absent exactly when nothing matches. */
  lemma FirstMatchSpec(text: string)
    ensures var r := FirstMatch(text);
      (r.Some? ==>
         IsMatch(text, r.value.0, r.value.1, r.value.2) &&
         (forall i: nat, k: nat, e: nat :: i < r.value.0 ==> !IsMatch(text, i, k, e))) &&
      (r.None? <==> forall i: nat, k: nat, e: nat :: !IsMatch(text, i, k, e))
  {
    FirstMatchFromLeftmost(text, 0);
  }

  /** A match with no match to its left is the one `FirstMatch` returns. */
  lemma FirstMatchIs(text: string, i: nat, k: nat, e: nat)
    requires IsMatch(text, i, k, e)
    requires forall i': nat, k': nat, e': nat :: i' < i ==> !IsMatch(text, i', k', e')
    ensures FirstMatch(text) == Some((i, k, e))
  {
    FirstMatchSpec(text);
    var r := FirstMatch(text);
    assert r.Some?;
    assert r.value.0 == i;
    MatchUnique(text, i, k, e, r.value.1, r.value.2);
  }

  // ---- the callback ----

  /** `list.find(x => x.replace(/["']/g, "") === c)`, as the index of the entry it returns. */
  function FindEntry(list: seq<string>, c: string): (r: Option<nat>)
    ensures r.Some? ==> r.value < |list|
  {
    if list == [] then None
    else if StripQuotes(list[0]) == c then Some(0)
    else match FindEntry(list[1..], c)
      case None => None
      case Some(j) => Some(j + 1)
  }

  /** `find` returns the first entry naming `c`, and nothing exactly when no entry names it. */
  lemma {:induction false} FindEntrySpec(list: seq<string>, c: string)
    ensures var r := FindEntry(list, c);
      (r.Some? ==>
         StripQuotes(list[r.value]) == c &&
         (forall m :: 0 <= m < r.value ==> StripQuotes(list[m]) != c)) &&
      (r.None? <==> forall m :: 0 <= m < |list| ==> StripQuotes(list[m]) != c)
  {
    if list != [] {
      FindEntrySpec(list[1..], c);
      if StripQuotes(list[0]) != c {
        forall m | 0 < m < |list| ensures list[m] == list[1..][m - 1] { }
      }
    }
  }

  /**
   * The entries after the callback: the quoted id is pushed when `find` returns nothing
   * or returns an empty entry, which JavaScript treats as false.
   */
  function AddChild(list: seq<string>, c: string): seq<string> {
    match FindEntry(list, c)
    case Some(j) => if list[j] == "" then list + [Quote(c)] else list
    case None => list + [Quote(c)]
  }

  /** The entries the callback writes for the bracketed text `inner`. */
  function NewEntries(inner: string, c: string): seq<string> {
    AddChild(ParseEntries(inner), c)
  }

  /** The callback's return value for the bracketed text `inner`. */
  function Replacement(inner: string, c: string): string {
    "children: [" + Join(NewEntries(inner, c), ", ") + "]"
  }

  /** The replace callback of main.ts, step by step: parse, search with `find`, push, join. */
  method ChildrenCallback(inner: string, childId: string) returns (replacement: string)
    ensures replacement == Replacement(inner, childId)
  {
    var list := ParseEntries(inner);
    var j := 0;
    while j < |list| && StripQuotes(list[j]) != childId
      invariant 0 <= j <= |list|
      invariant forall m :: 0 <= m < j ==> StripQuotes(list[m]) != childId
    {
      j := j + 1;
    }
    FindEntryAt(list, childId, j);
    if j == |list| || list[j] == "" {
      list := list + [Quote(childId)];
    }
    replacement := "children: [" + Join(list, ", ") + "]";
  }

  /** The index the search stops at is the one `find` returns. */
  lemma FindEntryAt(list: seq<string>, c: string, j: nat)
    requires j <= |list|
    requires forall m :: 0 <= m < j ==> StripQuotes(list[m]) != c
    requires j < |list| ==> StripQuotes(list[j]) == c
    ensures FindEntry(list, c) == if j == |list| then None else Some(j)
  {
    FindEntrySpec(list, c);
  }

  /** An id that no entry names is appended, quoted, after the old entries, in order. */
  lemma AddChildAppends(list: seq<string>, c: string)
    requires forall m :: 0 <= m < |list| ==> StripQuotes(list[m]) != c
    ensures AddChild(list, c) == list + [Quote(c)]
  {
    FindEntrySpec(list, c);
  }

  /** A missing quote-free id is appended after the old entries, and is then the only entry naming it. */
  lemma AddChildAbsent(list: seq<string>, c: string)
    requires Unquoted(c)
    requires forall m :: 0 <= m < |list| ==> StripQuotes(list[m]) != c
    ensures var r := AddChild(list, c);
      r == list + [Quote(c)] && StripQuotes(r[|r| - 1]) == c &&
      forall m :: 0 <= m < |r| && StripQuotes(r[m]) == c ==> m == |r| - 1
  {
    AddChildAppends(list, c);
    StripQuotesOfQuote(c);
  }

  /** An id that is already listed leaves the entries unchanged (for a non-empty id). */
  lemma AddChildPresent(list: seq<string>, c: string, m: nat)
    requires c != ""
    requires m < |list| && StripQuotes(list[m]) == c
    ensures AddChild(list, c) == list
  {
    FindEntrySpec(list, c);
    var j := FindEntry(list, c).value;
    assert StripQuotes(list[j]) != "";
  }

  /** After the callback the id is always listed. */
  lemma AddChildListed(list: seq<string>, c: string)
    requires Unquoted(c)
    ensures exists m :: 0 <= m < |AddChild(list, c)| && StripQuotes(AddChild(list, c)[m]) == c
  {
    var r := AddChild(list, c);
    FindEntrySpec(list, c);
    StripQuotesOfQuote(c);
    match FindEntry(list, c)
    case Some(j) =>
      if list[j] == "" {
        assert StripQuotes(r[|r| - 1]) == c;
      } else {
        assert StripQuotes(r[j]) == c;
      }
    case None =>
      assert StripQuotes(r[|r| - 1]) == c;
  }

  /** The empty id finds an empty entry but `find`'s falsy result still pushes it again. */
  lemma AddChildEmptyQuirk()
    ensures AddChild(["", "a"], "") == ["", "a", "\"\""]
  {
    assert StripQuotes("") == "";
    assert Quote("") == "\"\"";
  }

  /** `children: []` becomes `children: ["c"]`. */
  lemma ReplacementOfEmpty(c: string)
    ensures Replacement("", c) == "children: [" + Quote(c) + "]"
  {
    assert ParseEntries("") == [];
    assert AddChild([], c) == [Quote(c)];
  }

  // ---- the patch ----

  /** `content.replace(/children:\s*\[(.*?)\]/s, callback)`. */
  function Patch(text: string, c: string): string {
    match FirstMatch(text)
    case None => text
    case Some(m) => Rewrite(text, m.0, m.1, m.2, c)
  }

  /** The text with the match at `i` (brackets at `k` and `e`) replaced by the callback's value. */
  function Rewrite(text: string, i: nat, k: nat, e: nat, c: string): string
    requires i <= k < e < |text|
  {
    text[..i] + Replacement(text[k + 1..e], c) + text[e + 1..]
  }

  /**
   * Only the leftmost match is rewritten, and everything before and after it is kept;
   * without a match the content comes back unchanged.
   */
  lemma PatchScope(text: string, c: string, i: nat, k: nat, e: nat)
    requires IsMatch(text, i, k, e)
    requires forall i': nat, k': nat, e': nat :: i' < i ==> !IsMatch(text, i', k', e')
    ensures Patch(text, c) == Rewrite(text, i, k, e, c)
  {
    FirstMatchIs(text, i, k, e);
  }

  lemma PatchNoMatch(text: string, c: string)
    requires forall i: nat, k: nat, e: nat :: !IsMatch(text, i, k, e)
    ensures Patch(text, c) == text
  {
    FirstMatchSpec(text);
  }

  // ---- idempotence ----

  /** Entries parsed from text without `]` hold no `]`, and are clean. */
  lemma ParsedEntriesPlain(inner: string)
    requires ']' !in inner
    ensures var entries := ParseEntries(inner);
      forall m :: 0 <= m < |entries| ==> ']' !in entries[m] && Clean(entries[m])
  {
    ParseEntriesClean(inner);
    var entries := ParseEntries(inner);
    if entries != [] {
      var parts := Split(inner, ',');
      SplitParts(inner, ',');
      forall m | 0 <= m < |entries| ensures ']' !in entries[m] {
        TrimWithin(parts[m], ']');
      }
    }
  }

  /** For an id without `,` and `]`, the written entries are clean, hold no `]` and re-parse to themselves. */
  lemma NewEntriesPlain(inner: string, c: string)
    requires ']' !in inner && ',' !in c && ']' !in c
    ensures var list := NewEntries(inner, c);
      (forall m :: 0 <= m < |list| ==> ']' !in list[m] && Clean(list[m])) &&
      ']' !in Join(list, ", ") && ParseEntries(Join(list, ", ")) == list
  {
    var entries := ParseEntries(inner);
    var list := NewEntries(inner, c);
    ParsedEntriesPlain(inner);
    ParseEntriesClean(inner);
    QuoteClean(c);
    assert ']' !in Quote(c);
    assert list == entries || list == entries + [Quote(c)];
    assert list != [""] by {
      if list != entries {
        assert list[|list| - 1] == Quote(c);
      }
    }
    JoinExcludes(list, ", ", ']');
    ParseJoin(list);
  }

  /** Adding a non-empty id twice adds it once. */
  lemma AddChildStable(list: seq<string>, c: string)
    requires c != "" && Unquoted(c)
    ensures AddChild(AddChild(list, c), c) == AddChild(list, c)
  {
    AddChildListed(list, c);
    var m :| 0 <= m < |AddChild(list, c)| && StripQuotes(AddChild(list, c)[m]) == c;
    AddChildPresent(AddChild(list, c), c, m);
  }

  /** The label starts with the only `c` it holds. */
  lemma LabelShape()
    ensures |Label| == 9 && Label[0] == 'c'
    ensures forall d :: 1 <= d < |Label| ==> Label[d] != 'c'
  {
  }

  /** A match whose label starts left of a `c` at `i` has its `[` left of `i` as well. */
  lemma MatchBeforeLabel(u: string, i': nat, k: nat, e: nat, i: nat)
    requires IsMatch(u, i', k, e) && i' < i < |u| && u[i] == 'c'
    ensures k < i
  {
    LabelShape();
    var written, gap := u[i'..i' + |Label|], u[i' + |Label|..k];
    assert forall x :: i' <= x < i' + |Label| ==> u[x] == written[x - i'];
    assert forall x :: i' + |Label| <= x < k ==> u[x] == gap[x - i' - |Label|];
  }

  /**
   * Text that agrees with `t` up to and including the label of `t`'s leftmost match at `i`
   * has no match left of `i` either: a match there would need a `[` before `i`, and `t`
   * has a `]` after it.
   */
  lemma NoEarlierMatch(t: string, u: string, i: nat, e0: nat)
    requires i < e0 < |t| && t[e0] == ']'
    requires i < |u| && t[..i + 1] == u[..i + 1] && t[i] == 'c'
    requires forall i': nat, k: nat, e: nat :: i' < i ==> !IsMatch(t, i', k, e)
    ensures forall i': nat, k: nat, e: nat :: i' < i ==> !IsMatch(u, i', k, e)
  {
    forall i': nat, k: nat, e: nat | i' < i ensures !IsMatch(u, i', k, e) {
      if IsMatch(u, i', k, e) {
        MatchTransfers(t, u, i, e0, i', k, e);
      }
    }
  }

  /**
   * A match of `u` whose label starts left of `i`, where `u` agrees with `t` up to a `c` at `i`,
   * gives a match of `t` at the same label: `t` has a `]` after `i` to close it.
   */
  lemma MatchTransfers(t: string, u: string, i: nat, e0: nat, i': nat, k: nat, e: nat)
    requires i < e0 < |t| && t[e0] == ']'
    requires i < |u| && t[..i + 1] == u[..i + 1] && t[i] == 'c'
    requires IsMatch(u, i', k, e) && i' < i
    ensures exists e': nat :: IsMatch(t, i', k, e')
  {
    assert u[i] == 'c' by { assert u[..i + 1][i] == u[i]; }
    MatchBeforeLabel(u, i', k, e, i);
    forall x | 0 <= x <= i ensures t[x] == u[x] {
      assert t[..i + 1][x] == t[x] && u[..i + 1][x] == u[x];
    }
    assert t[i'..i' + |Label|] == u[i'..i' + |Label|];
    assert AllSpace(t[i' + |Label|..k]) by {
      var ts, us := t[i' + |Label|..k], u[i' + |Label|..k];
      forall x | 0 <= x < |ts| ensures IsSpace(ts[x]) {
        assert ts[x] == us[x];
      }
    }
    var rest := t[k + 1..];
    assert rest[e0 - k - 1] == ']';
    var d := IndexOf(rest, ']').value;
    assert t[k + 1..k + 1 + d] == rest[..d];
    assert IsMatch(t, i', k, k + 1 + d);
  }

  /** A list written as `children: [...]` between two texts is a match at the label, when the list holds no `]`. */
  lemma WrittenListMatches(a: string, j: string, b: string)
    requires ']' !in j
    ensures var u := a + "children: [" + j + "]" + b;
      IsMatch(u, |a|, |a| + 10, |a| + 11 + |j|) && u[|a| + 11..|a| + 11 + |j|] == j &&
      u[..|a|] == a && u[|a| + 12 + |j|..] == b
  {
    var u := a + "children: [" + j + "]" + b;
    var i := |a|;
    assert u[i..i + |Label|] == Label;
    assert u[i + |Label|..i + 10] == [' '];
    assert u[i + 11..i + 11 + |j|] == j;
  }

  /** The callback gives back the list it is handed when it leaves the entries as they are. */
  lemma ReplacementWritten(j: string, c: string)
    requires Join(NewEntries(j, c), ", ") == j
    ensures Replacement(j, c) == "children: [" + j + "]"
  {
  }

  /** Rewriting a written list that the callback gives back unchanged changes nothing. */
  lemma RewriteWritten(a: string, j: string, b: string, c: string)
    requires Replacement(j, c) == "children: [" + j + "]"
    ensures var u := a + "children: [" + j + "]" + b;
      Rewrite(u, |a|, |a| + 10, |a| + 11 + |j|, c) == u
  {
    var head := "children: [";
    var u := a + head + j + "]" + b;
    assert u[|a| + 11..|a| + 11 + |j|] == j;
    assert u[..|a|] == a;
    assert u[|a| + 12 + |j|..] == b;
    assert u == a + (head + j + "]") + b;
  }

  /** The first pass writes the new list in place of the leftmost match. */
  lemma FirstPass(text: string, c: string, i: nat, k: nat, e: nat)
    requires IsMatch(text, i, k, e)
    requires forall i': nat, k': nat, e': nat :: i' < i ==> !IsMatch(text, i', k', e')
    ensures Patch(text, c) ==
      text[..i] + "children: [" + Join(NewEntries(text[k + 1..e], c), ", ") + "]" + text[e + 1..]
  {
    PatchScope(text, c, i, k, e);
  }

  /**
   * In `u`, the text the first pass wrote, the written list is the leftmost match: `u` agrees
   * with the original up to the original's leftmost match.
   */
  lemma WrittenIsFirst(text: string, i: nat, e: nat, j: string)
    requires i + |Label| <= e < |text| && text[e] == ']'
    requires text[i..i + |Label|] == Label
    requires forall i': nat, k': nat, e': nat :: i' < i ==> !IsMatch(text, i', k', e')
    requires ']' !in j
    ensures var u := text[..i] + "children: [" + j + "]" + text[e + 1..];
      FirstMatch(u) == Some((i, i + 10, i + 11 + |j|))
  {
    var a, b := text[..i], text[e + 1..];
    var u := a + "children: [" + j + "]" + b;
    WrittenListMatches(a, j, b);
    LabelShape();
    var written := u[i..i + |Label|];
    assert u[i] == 'c' by {
      assert written == Label;
      assert written[0] == u[i];
    }
    assert text[i] == 'c' by {
      assert text[i..i + |Label|][0] == text[i];
    }
    assert text[..i + 1] == u[..i + 1] by {
      assert u[..i] == a;
      assert text[..i + 1] == text[..i] + [text[i]];
      assert u[..i + 1] == u[..i] + [u[i]];
    }
    NoEarlierMatch(text, u, i, e);
    FirstMatchIs(u, i, i + 10, i + 11 + |j|);
  }

  /** The second pass gives back the text the first pass wrote. */
  lemma SecondPass(a: string, j: string, b: string, c: string)
    requires FirstMatch(a + "children: [" + j + "]" + b) == Some((|a|, |a| + 10, |a| + 11 + |j|))
    requires Replacement(j, c) == "children: [" + j + "]"
    ensures Patch(a + "children: [" + j + "]" + b, c) == a + "children: [" + j + "]" + b
  {
    RewriteWritten(a, j, b, c);
  }

  /** What the callback writes for a non-empty id without `,`, `]` or quotes, it gives back unchanged. */
  lemma Settles(inner: string, c: string)
    requires ']' !in inner
    requires c != "" && ',' !in c && ']' !in c && Unquoted(c)
    ensures var j := Join(NewEntries(inner, c), ", ");
      ']' !in j && Replacement(j, c) == "children: [" + j + "]"
  {
    var list := NewEntries(inner, c);
    var j := Join(list, ", ");
    NewEntriesPlain(inner, c);
    AddChildStable(ParseEntries(inner), c);
    assert NewEntries(j, c) == list;
    ReplacementWritten(j, c);
  }

  /** The text the first pass writes at the leftmost match `i` of the original text patches to itself. */
  lemma SecondPassAt(text: string, c: string, i: nat, k: nat, e: nat)
    requires c != "" && ',' !in c && ']' !in c && Unquoted(c)
    requires IsMatch(text, i, k, e)
    requires forall i': nat, k': nat, e': nat :: i' < i ==> !IsMatch(text, i', k', e')
    ensures var u := text[..i] + "children: [" + Join(NewEntries(text[k + 1..e], c), ", ") + "]" + text[e + 1..];
      Patch(u, c) == u
  {
    var j := Join(NewEntries(text[k + 1..e], c), ", ");
    Settles(text[k + 1..e], c);
    WrittenSettles(text, i, e, j, c);
  }

  /** A written list that the callback gives back unchanged, in place of the leftmost match, patches to itself. */
  lemma WrittenSettles(text: string, i: nat, e: nat, j: string, c: string)
    requires i + |Label| <= e < |text| && text[e] == ']'
    requires text[i..i + |Label|] == Label
    requires forall i': nat, k': nat, e': nat :: i' < i ==> !IsMatch(text, i', k', e')
    requires ']' !in j && Replacement(j, c) == "children: [" + j + "]"
    ensures var u := text[..i] + "children: [" + j + "]" + text[e + 1..];
      Patch(u, c) == u
  {
    WrittenIsFirst(text, i, e, j);
    SecondPass(text[..i], j, text[e + 1..], c);
  }

  // ---- what the patched note lists ----

  /** The children list of a note as the patcher reads it: the entries of the leftmost match. */
  function ChildList(text: string): Option<seq<string>> {
    match FirstMatch(text)
    case None => None
    case Some(m) => Some(ParseEntries(text[m.1 + 1..m.2]))
  }

  /** In the text the first pass writes, the children list is the written list. */
  lemma WrittenChildList(text: string, i: nat, e: nat, j: string)
    requires i + |Label| <= e < |text| && text[e] == ']'
    requires text[i..i + |Label|] == Label
    requires forall i': nat, k': nat, e': nat :: i' < i ==> !IsMatch(text, i', k', e')
    requires ']' !in j
    ensures ChildList(text[..i] + "children: [" + j + "]" + text[e + 1..]) == Some(ParseEntries(j))
  {
    WrittenIsFirst(text, i, e, j);
    WrittenListMatches(text[..i], j, text[e + 1..]);
  }

  /**
   * After patching at the leftmost match `i`, the note's children list is the callback's
   * new entries, and so names the id, for an id without `,`, `]` and quotes.
   */
  lemma PatchListsChild(text: string, c: string, i: nat, k: nat, e: nat)
    requires ',' !in c && ']' !in c && Unquoted(c)
    requires IsMatch(text, i, k, e)
    requires forall i': nat, k': nat, e': nat :: i' < i ==> !IsMatch(text, i', k', e')
    ensures ChildList(Patch(text, c)) == Some(NewEntries(text[k + 1..e], c))
    ensures var list := NewEntries(text[k + 1..e], c);
      exists n :: 0 <= n < |list| && StripQuotes(list[n]) == c
  {
    var inner := text[k + 1..e];
    var j := Join(NewEntries(inner, c), ", ");
    var u := text[..i] + "children: [" + j + "]" + text[e + 1..];
    assert Patch(text, c) == u by {
      FirstPass(text, c, i, k, e);
    }
    assert ChildList(u) == Some(NewEntries(inner, c)) by {
      NewEntriesPlain(inner, c);
      WrittenChildList(text, i, e, j);
    }
    AddChildListed(ParseEntries(inner), c);
  }

  /**
   * Patching twice is patching once, for a non-empty id without `,`, `]` or quote
   * characters: the second pass finds the list the first one wrote, already naming the id.
   */
  lemma PatchIdempotent(text: string, c: string)
    requires c != "" && ',' !in c && ']' !in c && Unquoted(c)
    ensures Patch(Patch(text, c), c) == Patch(text, c)
  {
    FirstMatchSpec(text);
    if FirstMatch(text).Some? {
      var (i, k, e) := FirstMatch(text).value;
      FirstPass(text, c, i, k, e);
      SecondPassAt(text, c, i, k, e);
    }
  }
}
