/**
 * The JavaScript string built-ins the plugin relies on, restricted to ASCII:
 * the `\s` character class, `toLowerCase`, `trim`, `split` on a one-character
 * separator, `join`, `indexOf`, and the decimal rendering of an integer inside a template
 * literal.
 */
module JsText {
  import opened Wrappers

  /** The ASCII members of `\s`; they are also the ASCII characters `trim` removes. */
  predicate IsSpace(c: char) {
    c == ' ' || c == '\t' || c == '\n' || c == '\r' || c == '\U{000B}' || c == '\U{000C}'
  }

  predicate AllSpace(s: string) {
    forall i :: 0 <= i < |s| ==> IsSpace(s[i])
  }

  // ---- toLowerCase ----

  /** `toLowerCase` on one ASCII character: only `A`-`Z` change. */
  function LowerChar(c: char): char {
    if 'A' <= c <= 'Z' then (c as int - 'A' as int + 'a' as int) as char else c
  }

  function Lower(s: string): string {
    seq(|s|, i requires 0 <= i < |s| => LowerChar(s[i]))
  }

  lemma LowerIdempotent(s: string)
    ensures Lower(Lower(s)) == Lower(s)
  {
  }

  lemma LowerConcat(a: string, b: string)
    ensures Lower(a + b) == Lower(a) + Lower(b)
  {
  }

  lemma LowerFixes(s: string)
    requires forall i :: 0 <= i < |s| ==> !('A' <= s[i] <= 'Z')
    ensures Lower(s) == s
  {
  }

  // ---- trim ----

  /** Drops the leading whitespace. */
  function TrimStart(s: string): (r: string)
    ensures |r| <= |s|
    ensures r == [] || !IsSpace(r[0])
  {
    if s != [] && IsSpace(s[0]) then TrimStart(s[1..]) else s
  }

  /** Drops the trailing whitespace. */
  function TrimEnd(s: string): (r: string)
    ensures |r| <= |s|
    ensures r == [] || (!IsSpace(r[|r| - 1]) && r[0] == s[0])
  {
    if s != [] && IsSpace(s[|s| - 1]) then TrimEnd(s[..|s| - 1]) else s
  }

  /** `s.trim()`. */
  function Trim(s: string): (r: string)
    ensures |r| <= |s|
    ensures r == [] || (!IsSpace(r[0]) && !IsSpace(r[|r| - 1]))
  {
    TrimEnd(TrimStart(s))
  }

  /** `TrimStart` removes a prefix made only of whitespace. */
  lemma {:induction false} TrimStartSplits(s: string)
    ensures var r := TrimStart(s); s == s[..|s| - |r|] + r && AllSpace(s[..|s| - |r|])
  {
    if s != [] && IsSpace(s[0]) {
      TrimStartSplits(s[1..]);
      var r := TrimStart(s);
      var k := |s| - |r|;
      assert s[1..] == s[1..][..k - 1] + r;
      assert s[..k] == [s[0]] + s[1..][..k - 1];
    }
  }

  /** `TrimEnd` removes a suffix made only of whitespace. */
  lemma {:induction false} TrimEndSplits(s: string)
    ensures var r := TrimEnd(s); s == r + s[|r|..] && AllSpace(s[|r|..])
  {
    if s != [] && IsSpace(s[|s| - 1]) {
      var t := s[..|s| - 1];
      TrimEndSplits(t);
      var r := TrimEnd(s);
      assert t == r + t[|r|..];
      assert s == t + [s[|s| - 1]];
      assert s[|r|..] == t[|r|..] + [s[|s| - 1]];
    }
  }

  /** `trim` removes whitespace at both ends and nothing else. */
  lemma TrimSplits(s: string)
    ensures exists a, b :: a + Trim(s) + b == s && AllSpace(a) && AllSpace(b)
  {
    var t := TrimStart(s);
    TrimStartSplits(s);
    TrimEndSplits(t);
    var a, b := s[..|s| - |t|], t[|TrimEnd(t)|..];
    ConcatAssoc(a, TrimEnd(t), b);
  }

  lemma ConcatAssoc(a: string, r: string, b: string)
    ensures a + r + b == a + (r + b)
  {
  }

  /** A string that neither starts nor ends with whitespace is its own trim. */
  lemma TrimUnpadded(s: string)
    requires s == [] || (!IsSpace(s[0]) && !IsSpace(s[|s| - 1]))
    ensures Trim(s) == s
  {
  }

  lemma {:induction false} TrimStartPadded(w: string, s: string)
    requires AllSpace(w)
    ensures TrimStart(w + s) == TrimStart(s)
  {
    if w != [] {
      assert (w + s)[1..] == w[1..] + s;
      TrimStartPadded(w[1..], s);
    } else {
      assert w + s == s;
    }
  }

  lemma {:induction false} TrimEndPadded(s: string, w: string)
    requires AllSpace(w)
    ensures TrimEnd(s + w) == TrimEnd(s)
  {
    if w != [] {
      assert (s + w)[..|s + w| - 1] == s + w[..|w| - 1];
      TrimEndPadded(s, w[..|w| - 1]);
    } else {
      assert s + w == s;
    }
  }

  /** Trailing text after a string with a non-space character (at `i`) survives `TrimStart` untouched. */
  lemma {:induction false} TrimStartAppend(s: string, i: nat, w: string)
    requires i < |s| && !IsSpace(s[i])
    ensures TrimStart(s + w) == TrimStart(s) + w
  {
    if IsSpace(s[0]) {
      assert s[1..][i - 1] == s[i];
      TrimStartAppend(s[1..], i - 1, w);
      assert (s + w)[1..] == s[1..] + w;
    }
  }

  /** `trim` ignores any whitespace padding on either side. */
  lemma TrimPadded(w1: string, s: string, w2: string)
    requires AllSpace(w1) && AllSpace(w2)
    ensures Trim(w1 + s + w2) == Trim(s)
  {
    assert w1 + s + w2 == w1 + (s + w2);
    TrimStartPadded(w1, s + w2);
    if AllSpace(s) {
      TrimStartPadded(s, w2);
      TrimStartPadded(w2, []);
      TrimStartPadded(s, []);
      assert w2 + [] == w2 && s + [] == s;
    } else {
      var i :| 0 <= i < |s| && !IsSpace(s[i]);
      TrimStartAppend(s, i, w2);
      TrimEndPadded(TrimStart(s), w2);
    }
  }

  // ---- split and join ----

  /** `s.split(sep)` for a one-character separator: the pieces between separators, always at least one. */
  function Split(s: string, sep: char): (parts: seq<string>)
    ensures |parts| >= 1
  {
    if s == [] then [""]
    else
      var rest := Split(s[1..], sep);
      if s[0] == sep then [""] + rest else [[s[0]] + rest[0]] + rest[1..]
  }

  /** No piece of a split holds the separator, and every character of a piece comes from the string. */
  lemma {:induction false} SplitParts(s: string, sep: char)
    ensures forall k :: 0 <= k < |Split(s, sep)| ==> sep !in Split(s, sep)[k]
    ensures forall k, c :: 0 <= k < |Split(s, sep)| && c in Split(s, sep)[k] ==> c in s
  {
    if s != [] {
      SplitParts(s[1..], sep);
      var rest := Split(s[1..], sep);
      var parts := Split(s, sep);
      assert s == [s[0]] + s[1..];
      forall k, c | 0 <= k < |parts| && c in parts[k] ensures c in s {
        if s[0] != sep && k == 0 {
          assert c == s[0] || c in rest[0];
        } else if s[0] != sep {
          assert parts[k] == rest[k];
        } else if k > 0 {
          assert parts[k] == rest[k - 1];
        }
      }
      forall k | 0 <= k < |parts| ensures sep !in parts[k] {
        if s[0] != sep && k == 0 {
          assert parts[0] == [s[0]] + rest[0];
        } else if s[0] != sep {
          assert parts[k] == rest[k];
        } else if k > 0 {
          assert parts[k] == rest[k - 1];
        }
      }
    }
  }

  /** `parts.join(sep)`. */
  function Join(parts: seq<string>, sep: string): string {
    if |parts| == 0 then ""
    else if |parts| == 1 then parts[0]
    else parts[0] + sep + Join(parts[1..], sep)
  }

  /** Joining the pieces of a split with the separator gives the original string back. */
  lemma {:induction false} JoinSplit(s: string, sep: char)
    ensures Join(Split(s, sep), [sep]) == s
  {
    if s != [] {
      var rest := Split(s[1..], sep);
      JoinSplit(s[1..], sep);
      if s[0] == sep {
        assert s == [sep] + s[1..];
      } else if |rest| == 1 {
        assert s == [s[0]] + s[1..];
      } else {
        assert rest == [rest[0]] + rest[1..];
        assert Join(rest, [sep]) == rest[0] + [sep] + Join(rest[1..], [sep]);
        assert s == [s[0]] + s[1..];
      }
    }
  }

  lemma {:induction false} SplitNoSep(x: string, sep: char)
    requires sep !in x
    ensures Split(x, sep) == [x]
  {
    if x != [] {
      SplitNoSep(x[1..], sep);
      assert x == [x[0]] + x[1..];
    }
  }

  lemma {:induction false} SplitCons(x: string, sep: char, rest: string)
    requires sep !in x
    ensures Split(x + [sep] + rest, sep) == [x] + Split(rest, sep)
  {
    if x == [] {
      assert (x + [sep] + rest)[1..] == rest;
    } else {
      assert (x + [sep] + rest)[1..] == x[1..] + [sep] + rest;
      SplitCons(x[1..], sep, rest);
      assert x == [x[0]] + x[1..];
    }
  }

  /** Splitting a join recovers the parts when no part contains the separator. */
  lemma {:induction false} SplitJoin(parts: seq<string>, sep: char)
    requires |parts| >= 1
    requires forall k :: 0 <= k < |parts| ==> sep !in parts[k]
    ensures Split(Join(parts, [sep]), sep) == parts
  {
    if |parts| == 1 {
      SplitNoSep(parts[0], sep);
    } else {
      SplitJoin(parts[1..], sep);
      SplitCons(parts[0], sep, Join(parts[1..], [sep]));
      assert parts == [parts[0]] + parts[1..];
    }
  }

  /** A character that is neither in the separator nor in any part is not in the join. */
  lemma {:induction false} JoinExcludes(parts: seq<string>, sep: string, c: char)
    requires c !in sep
    requires forall k :: 0 <= k < |parts| ==> c !in parts[k]
    ensures c !in Join(parts, sep)
  {
    if |parts| > 1 {
      JoinExcludes(parts[1..], sep, c);
    }
  }

  /** The first position of `c` in `s`, if any; it finds the `]` that ends the lazy `(.*?)\]` and the colon of a front-matter line. */
  function IndexOf(s: string, c: char): (r: Option<nat>)
    ensures r.Some? ==> r.value < |s| && s[r.value] == c && c !in s[..r.value]
    ensures r.None? ==> c !in s
  {
    if s == [] then None
    else if s[0] == c then Some(0)
    else match IndexOf(s[1..], c)
      case None => None
      case Some(k) => assert s[..k + 1] == [s[0]] + s[1..][..k]; Some(k + 1)
  }

  /** A position holding `c` with no `c` before it is the one `indexOf` finds. */
  lemma IndexOfAt(s: string, c: char, d: nat)
    requires d < |s| && s[d] == c && c !in s[..d]
    ensures IndexOf(s, c) == Some(d)
  {
    var r := IndexOf(s, c);
    assert c in s by { assert s[d] == c; }
    assert r.Some?;
    assert s[..r.value + 1][r.value] == c;
    assert s[..d + 1][d] == c;
    assert forall x :: 0 <= x < r.value ==> s[..r.value][x] == s[x];
    assert forall x :: 0 <= x < d ==> s[..d][x] == s[x];
  }

  // ---- integers in template literals ----

  function DigitChar(d: nat): char
    requires d < 10
  {
    ('0' as int + d) as char
  }

  predicate IsDigits(s: string) {
    |s| >= 1 && forall i :: 0 <= i < |s| ==> '0' <= s[i] <= '9'
  }

  /** The decimal digits of `n`, most significant first, without leading zeros. */
  function NatToString(n: nat): (r: string)
    ensures IsDigits(r)
    ensures r[0] == '0' ==> n == 0
    decreases n
  {
    if n < 10 then [DigitChar(n)] else NatToString(n / 10) + [DigitChar(n % 10)]
  }

  /** `${i}` for an integer `i`. */
  function IntToString(i: int): string {
    if i < 0 then "-" + NatToString(-i) else NatToString(i)
  }

  /** The value of a string of decimal digits. */
  function DigitsValue(s: string): nat
    requires forall i :: 0 <= i < |s| ==> '0' <= s[i] <= '9'
  {
    if s == [] then 0 else DigitsValue(s[..|s| - 1]) * 10 + (s[|s| - 1] as int - '0' as int)
  }

  /** Reads an optionally negative decimal literal. */
  function ParseInt(s: string): int
    requires IsDigits(s) || (|s| >= 2 && s[0] == '-' && IsDigits(s[1..]))
  {
    if s[0] == '-' then 0 - DigitsValue(s[1..]) else DigitsValue(s)
  }

  lemma {:induction false} NatToStringValue(n: nat)
    ensures DigitsValue(NatToString(n)) == n
    decreases n
  {
    if n >= 10 {
      NatToStringValue(n / 10);
      var r := NatToString(n);
      assert r[..|r| - 1] == NatToString(n / 10);
    }
  }

  /** Reading back the decimal rendering of an integer gives the integer. */
  lemma IntToStringRoundTrip(i: int)
    ensures var s := IntToString(i);
      (IsDigits(s) || (|s| >= 2 && s[0] == '-' && IsDigits(s[1..]))) && ParseInt(s) == i
  {
    if i < 0 {
      NatToStringValue(-i);
      assert IntToString(i)[1..] == NatToString(-i);
    } else {
      NatToStringValue(i);
    }
  }
}
