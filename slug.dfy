/**
 * The slug generator of utils/slug.ts. `slugify` lower-cases and trims a title,
 * deletes every character outside `[a-z0-9\s-]`, turns each run of whitespace
 * into one hyphen and collapses each run of hyphens into one. Each `replace`
 * of the chain is one function below, so that `Slugify` is their composition.
 */
module Slug {
  import opened JsText

  predicate IsLowerAlnum(c: char) {
    'a' <= c <= 'z' || '0' <= c <= '9'
  }

  /** The class `[a-z0-9\s-]` that the first `replace` keeps. */
  predicate IsKept(c: char) {
    IsLowerAlnum(c) || IsSpace(c) || c == '-'
  }

  predicate IsSlugChar(c: char) {
    IsLowerAlnum(c) || c == '-'
  }

  predicate SlugAlphabet(s: string) {
    forall i :: 0 <= i < |s| ==> IsSlugChar(s[i])
  }

  predicate NoDoubleHyphen(s: string) {
    forall i :: 0 <= i < |s| - 1 ==> !(s[i] == '-' && s[i + 1] == '-')
  }

  /** `.replace(/[^a-z0-9\s-]/g, "")`: keeps exactly the characters of `[a-z0-9\s-]`, in order. */
  function DropUnkept(s: string): (r: string)
    ensures |r| <= |s|
    ensures forall i :: 0 <= i < |r| ==> IsKept(r[i])
  {
    if s == [] then [] else (if IsKept(s[0]) then [s[0]] else []) + DropUnkept(s[1..])
  }

  /** Nothing is left exactly when no character of `[a-z0-9\s-]` was there. */
  lemma {:induction false} DropUnkeptEmpty(s: string)
    ensures DropUnkept(s) == [] <==> forall i :: 0 <= i < |s| ==> !IsKept(s[i])
  {
    if s != [] {
      DropUnkeptEmpty(s[1..]);
      assert forall i :: 0 < i < |s| ==> s[i] == s[1..][i - 1];
    }
  }

  /** `.replace(/\s+/g, "-")`: each maximal run of whitespace becomes one hyphen. */
  function HyphenateSpace(s: string): (r: string)
    ensures |r| <= |s|
  {
    if s == [] then []
    else if IsSpace(s[0]) && |s| > 1 && IsSpace(s[1]) then HyphenateSpace(s[1..])
    else [if IsSpace(s[0]) then '-' else s[0]] + HyphenateSpace(s[1..])
  }

  /** No whitespace is left, the result is empty only for an empty input, and over `[a-z0-9\s-]` only slug characters come out. */
  lemma {:induction false} HyphenateSpaceShape(s: string)
    ensures var r := HyphenateSpace(s);
      (r == [] <==> s == []) &&
      (forall i :: 0 <= i < |r| ==> !IsSpace(r[i])) &&
      ((forall i :: 0 <= i < |s| ==> IsKept(s[i])) ==> SlugAlphabet(r))
  {
    if s != [] {
      HyphenateSpaceShape(s[1..]);
      assert forall i :: 0 <= i < |s[1..]| ==> s[1..][i] == s[i + 1];
    }
  }

  /** `.replace(/-+/g, "-")`: each maximal run of hyphens becomes one hyphen. */
  function CollapseHyphens(s: string): (r: string)
    ensures |r| <= |s|
    ensures r == [] <==> s == []
    ensures s != [] ==> r[0] == s[0]
    ensures NoDoubleHyphen(r)
    ensures SlugAlphabet(s) ==> SlugAlphabet(r)
  {
    if |s| <= 1 then s
    else if s[0] == '-' && s[1] == '-' then CollapseHyphens(s[1..])
    else [s[0]] + CollapseHyphens(s[1..])
  }

  /** `slugify(title)` (utils/slug.ts): only `a`-`z`, `0`-`9` and single hyphens remain. */
  function Slugify(title: string): (slug: string)
    ensures SlugAlphabet(slug) && NoDoubleHyphen(slug)
    ensures |slug| <= |title|
  {
    var kept := DropUnkept(Trim(Lower(title)));
    HyphenateSpaceShape(kept);
    CollapseHyphens(HyphenateSpace(kept))
  }

  // ---- every slug is a fixed point, hence idempotence ----

  lemma {:induction false} DropUnkeptFixes(s: string)
    requires forall i :: 0 <= i < |s| ==> IsKept(s[i])
    ensures DropUnkept(s) == s
  {
    if s != [] {
      assert forall i :: 0 <= i < |s[1..]| ==> s[1..][i] == s[i + 1];
      DropUnkeptFixes(s[1..]);
      assert s == [s[0]] + s[1..];
    }
  }

  lemma {:induction false} HyphenateSpaceFixes(s: string)
    requires forall i :: 0 <= i < |s| ==> !IsSpace(s[i])
    ensures HyphenateSpace(s) == s
  {
    if s != [] {
      assert forall i :: 0 <= i < |s[1..]| ==> s[1..][i] == s[i + 1];
      HyphenateSpaceFixes(s[1..]);
      assert s == [s[0]] + s[1..];
    }
  }

  lemma {:induction false} CollapseHyphensFixes(s: string)
    requires NoDoubleHyphen(s)
    ensures CollapseHyphens(s) == s
  {
    if |s| > 1 {
      assert forall i :: 0 <= i < |s[1..]| ==> s[1..][i] == s[i + 1];
      CollapseHyphensFixes(s[1..]);
      assert s == [s[0]] + s[1..];
    }
  }

  /** A string over `[a-z0-9-]` without a double hyphen is its own slug. */
  lemma SlugifyFixesSlugs(s: string)
    requires SlugAlphabet(s) && NoDoubleHyphen(s)
    ensures Slugify(s) == s
  {
    LowerFixes(s);
    TrimUnpadded(s);
    DropUnkeptFixes(s);
    HyphenateSpaceFixes(s);
    CollapseHyphensFixes(s);
  }

  /** `slugify(slugify(s)) == slugify(s)`. */
  lemma SlugifyIdempotent(title: string)
    ensures Slugify(Slugify(title)) == Slugify(title)
  {
    SlugifyFixesSlugs(Slugify(title));
  }

  // ---- letters and digits survive, in order ----

  /** The letters and digits of `s`, in order. */
  function AlnumOf(s: string): string {
    if s == [] then [] else (if IsLowerAlnum(s[0]) then [s[0]] else []) + AlnumOf(s[1..])
  }

  /** `s` with every hyphen deleted. */
  function RemoveHyphens(s: string): string {
    if s == [] then [] else (if s[0] != '-' then [s[0]] else []) + RemoveHyphens(s[1..])
  }

  lemma {:induction false} AlnumOfConcat(a: string, b: string)
    ensures AlnumOf(a + b) == AlnumOf(a) + AlnumOf(b)
  {
    if a != [] {
      assert (a + b)[1..] == a[1..] + b;
      AlnumOfConcat(a[1..], b);
    } else {
      assert a + b == b;
    }
  }

  lemma {:induction false} AlnumOfSpace(w: string)
    requires AllSpace(w)
    ensures AlnumOf(w) == []
  {
    if w != [] {
      assert AllSpace(w[1..]) by {
        assert forall i :: 0 <= i < |w[1..]| ==> w[1..][i] == w[i + 1];
      }
      AlnumOfSpace(w[1..]);
    }
  }

  lemma AlnumOfTrim(s: string)
    ensures AlnumOf(Trim(s)) == AlnumOf(s)
  {
    TrimSplits(s);
    var a, b :| a + Trim(s) + b == s && AllSpace(a) && AllSpace(b);
    AlnumOfConcat(a + Trim(s), b);
    AlnumOfConcat(a, Trim(s));
    AlnumOfSpace(a);
    AlnumOfSpace(b);
  }

  lemma {:induction false} AlnumOfDropUnkept(s: string)
    ensures AlnumOf(DropUnkept(s)) == AlnumOf(s)
  {
    if s != [] {
      AlnumOfDropUnkept(s[1..]);
      AlnumOfConcat(if IsKept(s[0]) then [s[0]] else [], DropUnkept(s[1..]));
    }
  }

  lemma {:induction false} AlnumOfHyphenateSpace(s: string)
    ensures AlnumOf(HyphenateSpace(s)) == AlnumOf(s)
  {
    if s != [] {
      AlnumOfHyphenateSpace(s[1..]);
      if !(IsSpace(s[0]) && |s| > 1 && IsSpace(s[1])) {
        AlnumOfConcat([if IsSpace(s[0]) then '-' else s[0]], HyphenateSpace(s[1..]));
      }
    }
  }

  lemma {:induction false} AlnumOfCollapseHyphens(s: string)
    ensures AlnumOf(CollapseHyphens(s)) == AlnumOf(s)
  {
    if |s| > 1 {
      AlnumOfCollapseHyphens(s[1..]);
      if !(s[0] == '-' && s[1] == '-') {
        AlnumOfConcat([s[0]], CollapseHyphens(s[1..]));
      }
    }
  }

  lemma {:induction false} RemoveHyphensOfSlug(s: string)
    requires SlugAlphabet(s)
    ensures RemoveHyphens(s) == AlnumOf(s)
  {
    if s != [] {
      assert SlugAlphabet(s[1..]) by {
        assert forall i :: 0 <= i < |s[1..]| ==> s[1..][i] == s[i + 1];
      }
      RemoveHyphensOfSlug(s[1..]);
    }
  }

  /** Deleting the hyphens of a slug leaves exactly the letters and digits of the lower-cased title, in order. */
  lemma SlugifyKeepsAlnum(title: string)
    ensures RemoveHyphens(Slugify(title)) == AlnumOf(Lower(title))
  {
    var t := Trim(Lower(title));
    AlnumOfTrim(Lower(title));
    AlnumOfDropUnkept(t);
    AlnumOfHyphenateSpace(DropUnkept(t));
    AlnumOfCollapseHyphens(HyphenateSpace(DropUnkept(t)));
    RemoveHyphensOfSlug(Slugify(title));
  }

  // ---- what does not matter, and when nothing is left ----

  /** Outer whitespace and ASCII case do not change the slug. */
  lemma SlugifyIgnoresCaseAndPadding(pre: string, title: string, post: string)
    requires AllSpace(pre) && AllSpace(post)
    ensures Slugify(pre + title + post) == Slugify(title)
    ensures Slugify(Lower(title)) == Slugify(title)
  {
    LowerConcat(pre + title, post);
    LowerConcat(pre, title);
    LowerFixes(pre);
    LowerFixes(post);
    TrimPadded(pre, Lower(title), post);
    LowerIdempotent(title);
  }

  /** The slug is empty exactly when the trimmed, lower-cased title has no character of `[a-z0-9\s-]`. */
  lemma SlugifyEmpty(title: string)
    ensures Slugify(title) == "" <==>
      var t := Trim(Lower(title)); forall i :: 0 <= i < |t| ==> !IsKept(t[i])
  {
    DropUnkeptEmpty(Trim(Lower(title)));
    HyphenateSpaceShape(DropUnkept(Trim(Lower(title))));
  }

  /** A title none of whose lower-cased characters is a letter, digit, whitespace or hyphen gives `""`. */
  lemma SlugifyNothingKept(title: string)
    requires forall i :: 0 <= i < |title| ==> !IsKept(LowerChar(title[i]))
    ensures Slugify(title) == ""
  {
    var l := Lower(title);
    TrimSplits(l);
    var a, b :| a + Trim(l) + b == l && AllSpace(a) && AllSpace(b);
    var t := Trim(l);
    forall i | 0 <= i < |t| ensures !IsKept(t[i]) {
      assert t[i] == l[|a| + i];
    }
    SlugifyEmpty(title);
  }

  // ---- the stages on concatenations, and worked examples ----

  /** Deleting characters distributes over concatenation. */
  lemma {:induction false} DropUnkeptConcat(a: string, b: string)
    ensures DropUnkept(a + b) == DropUnkept(a) + DropUnkept(b)
  {
    if a != [] {
      assert (a + b)[1..] == a[1..] + b;
      DropUnkeptConcat(a[1..], b);
    } else {
      assert a + b == b;
    }
  }

  /** Whitespace runs are replaced independently unless one run straddles the boundary. */
  lemma {:induction false} HyphenateSpaceConcat(a: string, b: string)
    requires a == [] || b == [] || !IsSpace(a[|a| - 1]) || !IsSpace(b[0])
    ensures HyphenateSpace(a + b) == HyphenateSpace(a) + HyphenateSpace(b)
  {
    if a == [] {
      assert a + b == b;
    } else if b == [] {
      assert a + b == a;
    } else {
      assert (a + b)[1..] == a[1..] + b;
      HyphenateSpaceConcat(a[1..], b);
    }
  }

  /** A non-empty run of whitespace becomes a single hyphen. */
  lemma {:induction false} HyphenateSpaceRun(w: string)
    requires w != [] && AllSpace(w)
    ensures HyphenateSpace(w) == "-"
  {
    if |w| > 1 {
      assert AllSpace(w[1..]) by {
        assert forall i :: 0 <= i < |w[1..]| ==> w[1..][i] == w[i + 1];
      }
      HyphenateSpaceRun(w[1..]);
    }
  }

  /** Characters outside `[a-z0-9\s-]` between two kept stretches simply vanish. */
  lemma DropUnkeptDeletes(a: string, x: string, b: string)
    requires forall i :: 0 <= i < |a| ==> IsKept(a[i])
    requires forall i :: 0 <= i < |x| ==> !IsKept(x[i])
    requires forall i :: 0 <= i < |b| ==> IsKept(b[i])
    ensures DropUnkept(a + x + b) == a + b
  {
    assert DropUnkept(x) == [] by {
      DropUnkeptEmpty(x);
    }
    DropUnkeptFixes(a);
    DropUnkeptFixes(b);
    DropUnkeptConcat(a, x);
    assert a + [] == a;
    DropUnkeptConcat(a + x, b);
  }

  /** A run of whitespace between two non-space neighbours becomes one hyphen, and each side is hyphenated on its own. */
  lemma HyphenateSpaceGap(a: string, w: string, b: string)
    requires w != [] && AllSpace(w)
    requires a == [] || !IsSpace(a[|a| - 1])
    requires b == [] || !IsSpace(b[0])
    ensures HyphenateSpace(a + w + b) == HyphenateSpace(a) + "-" + HyphenateSpace(b)
  {
    HyphenateSpaceConcat(a + w, b);
    HyphenateSpaceConcat(a, w);
    HyphenateSpaceRun(w);
  }

  predicate AllHyphens(h: string) {
    forall i :: 0 <= i < |h| ==> h[i] == '-'
  }

  /** Hyphen runs are collapsed independently unless one run straddles the boundary. */
  lemma {:induction false} CollapseHyphensConcat(a: string, b: string)
    requires a == [] || b == [] || a[|a| - 1] != '-' || b[0] != '-'
    ensures CollapseHyphens(a + b) == CollapseHyphens(a) + CollapseHyphens(b)
  {
    if a == [] {
      assert a + b == b;
    } else if b == [] {
      assert a + b == a;
    } else if |a| == 1 {
      assert (a + b)[1..] == b;
    } else {
      assert (a + b)[1..] == a[1..] + b;
      CollapseHyphensConcat(a[1..], b);
    }
  }

  /** A non-empty run of hyphens becomes a single hyphen. */
  lemma {:induction false} CollapseHyphensRun(h: string)
    requires h != [] && AllHyphens(h)
    ensures CollapseHyphens(h) == "-"
  {
    if |h| > 1 {
      assert AllHyphens(h[1..]) by {
        assert forall i :: 0 <= i < |h[1..]| ==> h[1..][i] == h[i + 1];
      }
      CollapseHyphensRun(h[1..]);
    }
  }

  /** A maximal hyphen run between two pieces becomes exactly one hyphen. */
  lemma CollapseHyphensGap(a: string, h: string, b: string)
    requires h != [] && AllHyphens(h)
    requires a == [] || a[|a| - 1] != '-'
    requires b == [] || b[0] != '-'
    ensures CollapseHyphens(a + h + b) == CollapseHyphens(a) + "-" + CollapseHyphens(b)
  {
    CollapseHyphensConcat(a + h, b);
    CollapseHyphensConcat(a, h);
    CollapseHyphensRun(h);
  }

  predicate NoSpace(s: string) {
    forall i :: 0 <= i < |s| ==> !IsSpace(s[i])
  }

  /** A run of whitespace between two words becomes one hyphen. */
  lemma HyphenateWords(a: string, w: string, b: string)
    requires NoSpace(a) && NoSpace(b) && w != [] && AllSpace(w)
    ensures HyphenateSpace(a + w + b) == a + "-" + b
  {
    HyphenateSpaceGap(a, w, b);
    HyphenateSpaceFixes(a);
    HyphenateSpaceFixes(b);
  }

  // In the worked examples below the intermediate strings are written as concatenations of
  // their words, so that each stage can be followed word by word.

  // The stages of `"Eldoria's Gate"`, one lemma each.

  lemma EldoriaLowered()
    ensures Lower("Eldoria's Gate") == "eldoria" + "'" + "s gate"
  {
  }

  lemma EldoriaTrimmed()
    ensures Trim("eldoria" + "'" + "s gate") == "eldoria" + "'" + "s gate"
  {
    TrimUnpadded("eldoria" + "'" + "s gate");
  }

  lemma EldoriaDropped()
    ensures DropUnkept("eldoria" + "'" + "s gate") == "eldorias" + " " + "gate"
  {
    DropUnkeptDeletes("eldoria", "'", "s gate");
    assert "eldoria" + "s gate" == "eldorias" + " " + "gate";
  }

  lemma EldoriaWords()
    ensures NoSpace("eldorias") && NoSpace("gate")
  {
  }

  lemma EldoriaHyphenated()
    ensures HyphenateSpace("eldorias" + " " + "gate") == "eldorias" + "-" + "gate"
  {
    EldoriaWords();
    HyphenateWords("eldorias", " ", "gate");
  }

  lemma EldoriaCollapsed()
    ensures CollapseHyphens("eldorias" + "-" + "gate") == "eldorias" + "-" + "gate"
  {
    CollapseHyphensFixes("eldorias" + "-" + "gate");
  }

  /** The five stages of `"Eldoria's Gate"` in turn. */
  lemma EldoriaStages()
    ensures Slugify("Eldoria's Gate") == "eldorias" + "-" + "gate"
  {
    EldoriaLowered();
    EldoriaTrimmed();
    EldoriaDropped();
    EldoriaHyphenated();
    EldoriaCollapsed();
  }

  /** `"Eldoria's Gate"` gives `"eldorias-gate"`: the apostrophe vanishes and the space becomes a hyphen. */
  lemma SlugifyApostrophe()
    ensures Slugify("Eldoria's Gate") == "eldorias-gate"
  {
    EldoriaStages();
    EldoriaJoined();
  }

  lemma EldoriaJoined()
    ensures "eldorias" + "-" + "gate" == "eldorias-gate"
  {
  }

  // The stages of `"  The   Sunken Keep!!"`, one lemma each.

  lemma SunkenLowered()
    ensures Lower("  The   Sunken Keep!!") == "  " + ("the" + "   " + "sunken" + " " + "keep" + "!!") + ""
  {
  }

  lemma SunkenTrimmed()
    ensures Trim("  " + ("the" + "   " + "sunken" + " " + "keep" + "!!") + "")
      == "the" + "   " + "sunken" + " " + "keep" + "!!"
  {
    TrimPadded("  ", "the" + "   " + "sunken" + " " + "keep" + "!!", "");
    TrimUnpadded("the" + "   " + "sunken" + " " + "keep" + "!!");
  }

  lemma SunkenDropped()
    ensures DropUnkept("the" + "   " + "sunken" + " " + "keep" + "!!") == "the" + "   " + ("sunken" + " " + "keep")
  {
    DropUnkeptDeletes("the" + "   " + "sunken" + " " + "keep", "!!", "");
    assert "the" + "   " + "sunken" + " " + "keep" + "!!" + "" == "the" + "   " + "sunken" + " " + "keep" + "!!";
    assert "the" + "   " + "sunken" + " " + "keep" + "" == "the" + "   " + ("sunken" + " " + "keep");
  }

  lemma SunkenWords()
    ensures NoSpace("sunken") && NoSpace("keep")
  {
  }

  lemma SunkenHyphenatedTail()
    ensures HyphenateSpace("sunken" + " " + "keep") == "sunken" + "-" + "keep"
  {
    SunkenWords();
    HyphenateWords("sunken", " ", "keep");
  }

  lemma SunkenHyphenated()
    ensures HyphenateSpace("the" + "   " + ("sunken" + " " + "keep")) == "the" + "-" + "sunken" + "-" + "keep"
  {
    HyphenateSpaceGap("the", "   ", "sunken" + " " + "keep");
    HyphenateSpaceFixes("the");
    SunkenHyphenatedTail();
    assert "the" + "-" + ("sunken" + "-" + "keep") == "the" + "-" + "sunken" + "-" + "keep";
  }

  lemma SunkenCollapsed()
    ensures CollapseHyphens("the" + "-" + "sunken" + "-" + "keep") == "the" + "-" + "sunken" + "-" + "keep"
  {
    CollapseHyphensFixes("the" + "-" + "sunken" + "-" + "keep");
  }

  /** The five stages of `"  The   Sunken Keep!!"` in turn. */
  lemma SunkenStages()
    ensures Slugify("  The   Sunken Keep!!") == "the" + "-" + "sunken" + "-" + "keep"
  {
    SunkenLowered();
    SunkenTrimmed();
    SunkenDropped();
    SunkenHyphenated();
    SunkenCollapsed();
  }

  /** `"  The   Sunken Keep!!"` gives `"the-sunken-keep"`: outer spaces go, inner runs become one hyphen. */
  lemma SlugifyRunsOfSpace()
    ensures Slugify("  The   Sunken Keep!!") == "the-sunken-keep"
  {
    SunkenStages();
    SunkenJoined();
  }

  lemma SunkenJoined()
    ensures "the" + "-" + "sunken" + "-" + "keep" == "the-sunken-keep"
  {
  }

  /** `"keep !"` gives `"keep-"`: trimming happens before the `!` is deleted, so the space before it survives as a hyphen. */
  lemma SlugifyTrailingHyphen()
    ensures Slugify("keep !") == "keep-"
  {
    var keep, space, bang := "keep", " ", "!";
    var lowered := keep + space + bang;
    assert Lower("keep !") == lowered;
    TrimUnpadded(lowered);
    assert DropUnkept(lowered) == keep + space by {
      DropUnkeptDeletes(keep + space, bang, "");
      assert keep + space + bang + "" == lowered;
      assert keep + space + "" == keep + space;
    }
    assert HyphenateSpace(keep + space) == keep + "-" by {
      HyphenateSpaceGap(keep, space, "");
      HyphenateSpaceFixes(keep);
      assert keep + space + "" == keep + space;
      assert keep + "-" + HyphenateSpace("") == keep + "-";
    }
    CollapseHyphensFixes(keep + "-");
    assert keep + "-" == "keep-";
  }

  /** `"!!!"` gives `""`: nothing of `[a-z0-9\s-]` is there. */
  lemma SlugifyNothingKeptExample()
    ensures Slugify("!!!") == ""
  {
    SlugifyNothingKept("!!!");
  }

  /** `"  X "` gives the same slug as `"x"`. */
  lemma SlugifyPaddingExample()
    ensures Slugify("  X ") == Slugify("x") == "x"
  {
    assert "  X " == "  " + "X" + " ";
    SlugifyIgnoresCaseAndPadding("  ", "X", " ");
    assert Lower("X") == "x";
    SlugifyFixesSlugs("x");
  }
}
