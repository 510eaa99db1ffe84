/**
 * The inline list notation `["a", "b"]` of the front matter. The renderers
 * write it as `[${items.map(a => `"${a}"`).join(", ")}]` (main.ts), and the
 * children patcher reads the inside of the brackets back with
 * `inner.trim().length ? inner.split(",").map(s => s.trim()) : []` and
 * compares entries after deleting every `"` and `'`.
 */
module InlineList {
  import opened Wrappers
  import opened JsText

  function Quote(s: string): string {
    "\"" + s + "\""
  }

  function QuoteAll(items: seq<string>): (quoted: seq<string>)
    ensures |quoted| == |items|
  {
    seq(|items|, i requires 0 <= i < |items| => Quote(items[i]))
  }

  /** `[${items.map(a => `"${a}"`).join(", ")}]`. */
  function Show(items: seq<string>): string {
    "[" + Join(QuoteAll(items), ", ") + "]"
  }

  /** `x.replace(/["']/g, "")`: every double and single quote deleted. */
  function StripQuotes(s: string): (r: string)
    ensures |r| <= |s|
    ensures '"' !in r && '\'' !in r
  {
    if s == [] then []
    else (if s[0] == '"' || s[0] == '\'' then [] else [s[0]]) + StripQuotes(s[1..])
  }

  predicate Unquoted(s: string) {
    '"' !in s && '\'' !in s
  }

  lemma {:induction false} StripQuotesFixes(s: string)
    requires Unquoted(s)
    ensures StripQuotes(s) == s
  {
    if s != [] {
      StripQuotesFixes(s[1..]);
      assert s == [s[0]] + s[1..];
    }
  }

  lemma {:induction false} StripQuotesConcat(a: string, b: string)
    ensures StripQuotes(a + b) == StripQuotes(a) + StripQuotes(b)
  {
    if a != [] {
      assert (a + b)[1..] == a[1..] + b;
      StripQuotesConcat(a[1..], b);
    } else {
      assert a + b == b;
    }
  }

  /** Quoting is undone by stripping quotes, for a string without quotes of its own. */
  lemma StripQuotesOfQuote(s: string)
    requires Unquoted(s)
    ensures StripQuotes(Quote(s)) == s
  {
    StripQuotesConcat("\"" + s, "\"");
    StripQuotesConcat("\"", s);
    StripQuotesFixes(s);
  }

  /** The empty string is the only one whose quote-stripped form is empty and that has no quote character. */
  lemma StripQuotesEmpty(s: string)
    requires StripQuotes(s) == ""
    ensures s == "" || '"' in s || '\'' in s
  {
  }

  function TrimAll(parts: seq<string>): (trimmed: seq<string>)
    ensures |trimmed| == |parts|
  {
    seq(|parts|, i requires 0 <= i < |parts| => Trim(parts[i]))
  }

  /** An entry as the patcher leaves it: trimmed and free of commas. */
  predicate Clean(e: string) {
    ',' !in e && Trim(e) == e
  }

  /** `inner.trim().length ? inner.split(",").map(s => s.trim()) : []`. */
  function ParseEntries(inner: string): seq<string> {
    if Trim(inner) != [] then TrimAll(Split(inner, ',')) else []
  }

  /**
   * The parser returns no entry exactly for blank text; every entry it returns is clean,
   * and it never returns the single empty entry.
   */
  lemma ParseEntriesClean(inner: string)
    ensures var entries := ParseEntries(inner);
      (entries == [] <==> Trim(inner) == []) &&
      (forall k :: 0 <= k < |entries| ==> Clean(entries[k])) && entries != [""]
  {
    var entries := ParseEntries(inner);
    SplitParts(inner, ',');
    forall k | 0 <= k < |entries| ensures Clean(entries[k]) {
      TrimIdempotent(Split(inner, ',')[k]);
      TrimWithin(Split(inner, ',')[k], ',');
    }
    if Trim(inner) != [] && |Split(inner, ',')| == 1 {
      JoinSplit(inner, ',');
      assert entries == [Trim(inner)];
    }
  }

  /** A character missing from a string is missing from its trim. */
  lemma TrimWithin(s: string, c: char)
    requires c !in s
    ensures c !in Trim(s)
  {
    TrimSplits(s);
  }

  lemma TrimIdempotent(s: string)
    ensures Trim(Trim(s)) == Trim(s)
  {
    TrimUnpadded(Trim(s));
  }

  /** A string with a non-space character keeps a non-empty trim. */
  lemma TrimNonEmpty(s: string, i: nat)
    requires i < |s| && !IsSpace(s[i])
    ensures Trim(s) != []
  {
    TrimSplits(s);
  }

  /** Pads every part but the first with one leading space. */
  function PadTail(parts: seq<string>): (padded: seq<string>)
    requires |parts| >= 1
    ensures |padded| == |parts|
  {
    [parts[0]] + seq(|parts| - 1, i requires 0 <= i < |parts| - 1 => " " + parts[i + 1])
  }

  /** Joining with `", "` is joining the padded parts with `","`. */
  lemma {:induction false} JoinCommaSpace(parts: seq<string>)
    requires |parts| >= 1
    ensures Join(parts, ", ") == Join(PadTail(parts), ",")
  {
    if |parts| > 1 {
      JoinCommaSpace(parts[1..]);
      var tail := PadTail(parts[1..]);
      var ptail := PadTail(parts)[1..];
      assert ptail == [" " + tail[0]] + tail[1..];
      assert Join(PadTail(parts), ",") == parts[0] + "," + Join(ptail, ",");
      if |parts| == 2 {
        assert Join(ptail, ",") == " " + parts[1];
      } else {
        assert Join(ptail, ",") == " " + tail[0] + "," + Join(tail[1..], ",");
        assert Join(tail, ",") == tail[0] + "," + Join(tail[1..], ",");
      }
    }
  }

  lemma SplitJoinCommaSpace(entries: seq<string>)
    requires |entries| >= 1
    requires forall k :: 0 <= k < |entries| ==> ',' !in entries[k]
    ensures Split(Join(entries, ", "), ',') == PadTail(entries)
  {
    var padded := PadTail(entries);
    JoinCommaSpace(entries);
    forall k | 0 <= k < |padded| ensures ',' !in padded[k] {
      if k > 0 {
        assert padded[k] == " " + entries[k];
      }
    }
    SplitJoin(padded, ',');
  }

  lemma TrimAllPadTail(entries: seq<string>)
    requires |entries| >= 1
    requires forall k :: 0 <= k < |entries| ==> Trim(entries[k]) == entries[k]
    ensures TrimAll(PadTail(entries)) == entries
  {
    var padded := PadTail(entries);
    forall k | 0 <= k < |padded| ensures Trim(padded[k]) == entries[k] {
      if k > 0 {
        assert padded[k] == " " + entries[k] + "";
        TrimPadded(" ", entries[k], "");
      }
    }
  }

  lemma JoinCommaSpaceNonBlank(entries: seq<string>)
    requires |entries| >= 1 && entries != [""]
    requires forall k :: 0 <= k < |entries| ==> Trim(entries[k]) == entries[k]
    ensures Trim(Join(entries, ", ")) != []
  {
    if |entries| == 1 {
      var e := entries[0];
      assert entries == [e] && e != "";
      assert Join(entries, ", ") == e && Trim(e) == e;
    } else {
      JoinHasComma(entries);
      TrimNonEmpty(Join(entries, ", "), |entries[0]|);
    }
  }

  /** A join of two or more entries has the comma right after the first entry. */
  lemma JoinHasComma(entries: seq<string>)
    requires |entries| >= 2
    ensures |entries[0]| < |Join(entries, ", ")| && Join(entries, ", ")[|entries[0]|] == ','
  {
    var rest := Join(entries[1..], ", ");
    assert Join(entries, ", ") == entries[0] + (", " + rest);
    assert (entries[0] + (", " + rest))[|entries[0]|] == ',';
  }

  /** Re-parsing a joined list of clean entries gives the entries back (except for the lone empty entry, which reads as no entry). */
  lemma ParseJoin(entries: seq<string>)
    requires forall k :: 0 <= k < |entries| ==> Clean(entries[k])
    requires entries != [""]
    ensures ParseEntries(Join(entries, ", ")) == entries
  {
    if entries != [] {
      SplitJoinCommaSpace(entries);
      TrimAllPadTail(entries);
      JoinCommaSpaceNonBlank(entries);
    }
  }

  /** A quoted string is clean when the string has no comma. */
  lemma QuoteClean(s: string)
    requires ',' !in s
    ensures Clean(Quote(s))
  {
    TrimUnpadded(Quote(s));
  }

  /** Reads an inline list back: the bracketed text, split and trimmed, each entry with its quotes removed. */
  function ReadList(value: string): Option<seq<string>> {
    if |value| >= 2 && value[0] == '[' && value[|value| - 1] == ']' then
      var entries := ParseEntries(value[1..|value| - 1]);
      Some(seq(|entries|, k requires 0 <= k < |entries| => StripQuotes(entries[k])))
    else None
  }

  /** Reading a rendered list gives the original items, for items without commas and quotes. */
  lemma ReadShow(items: seq<string>)
    requires forall k :: 0 <= k < |items| ==> ',' !in items[k] && Unquoted(items[k])
    ensures ReadList(Show(items)) == Some(items)
  {
    var value := Show(items);
    var quoted := QuoteAll(items);
    assert value[1..|value| - 1] == Join(quoted, ", ");
    assert ParseEntries(Join(quoted, ", ")) == quoted by {
      ParseQuoted(items);
    }
    forall k | 0 <= k < |items| ensures StripQuotes(quoted[k]) == items[k] {
      StripQuotesOfQuote(items[k]);
    }
    assert seq(|quoted|, k requires 0 <= k < |quoted| => StripQuotes(quoted[k])) == items;
  }

  /** The quoted items, joined, parse back to themselves. */
  lemma ParseQuoted(items: seq<string>)
    requires forall k :: 0 <= k < |items| ==> ',' !in items[k]
    ensures ParseEntries(Join(QuoteAll(items), ", ")) == QuoteAll(items)
  {
    var quoted := QuoteAll(items);
    forall k | 0 <= k < |quoted| ensures Clean(quoted[k]) {
      QuoteClean(items[k]);
    }
    assert quoted != [""] by {
      if |quoted| == 1 {
        assert quoted[0] == Quote(items[0]);
      }
    }
    ParseJoin(quoted);
  }
}
