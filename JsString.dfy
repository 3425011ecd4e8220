/**
  The JavaScript string operations the pipeline relies on, over strings of
  characters: `\s` and `trim()`, `toLowerCase()` (ASCII letters only),
  `includes`, `split` on one character, `join`, and the sentence punctuation
  class `[.!?]` used by the regular expressions of both pipeline files.
*/
module JsString {
  import opened Sequences

  /** The characters JavaScript's `\s` class and `String.prototype.trim` treat as white space. */
  predicate IsWhitespace(c: char)
  {
    || c == ' ' || c == '\t' || c == '\n' || c == '\U{000B}' || c == '\U{000C}' || c == '\r'
    || c == '\U{00A0}' || c == '\U{1680}' || ('\U{2000}' <= c <= '\U{200A}')
    || c == '\U{2028}' || c == '\U{2029}' || c == '\U{202F}' || c == '\U{205F}'
    || c == '\U{3000}' || c == '\U{FEFF}'
  }

  /** Some character of `s` is not white space. */
  predicate HasVisible(s: string)
  {
    exists i :: 0 <= i < |s| && !IsWhitespace(s[i])
  }

  /** `s` neither starts nor ends with white space (what `trim()` returns). */
  predicate NoEdgeWhitespace(s: string)
  {
    s == [] || (!IsWhitespace(s[0]) && !IsWhitespace(s[|s| - 1]))
  }

  /** The white space at the end of `s` removed. */
  function TrimEnd(s: string): (r: string)
    ensures |r| <= |s| && r == s[..|r|]
    ensures r == [] || !IsWhitespace(r[|r| - 1])
    ensures forall i :: |r| <= i < |s| ==> IsWhitespace(s[i])
  {
    if s != [] && IsWhitespace(s[|s| - 1]) then TrimEnd(s[..|s| - 1]) else s
  }

  /** The white space at the start of `s` removed. */
  function TrimStart(s: string): (r: string)
    ensures |r| <= |s| && r == s[|s| - |r|..]
    ensures r == [] || !IsWhitespace(r[0])
    ensures forall i :: 0 <= i < |s| - |r| ==> IsWhitespace(s[i])
  {
    if s != [] && IsWhitespace(s[0]) then TrimStart(s[1..]) else s
  }

  /** `String.prototype.trim`. */
  function Trim(s: string): (r: string)
    ensures NoEdgeWhitespace(r)
    ensures |r| <= |s|
    ensures r == [] <==> !HasVisible(s)
    ensures NoEdgeWhitespace(s) ==> r == s
  {
    var e := TrimEnd(s);
    var r := TrimStart(e);
    assert r != [] ==> r[|r| - 1] == e[|e| - 1];
    assert r == [] ==> forall i :: 0 <= i < |s| ==> IsWhitespace(s[i]) by {
      if r == [] {
        forall i | 0 <= i < |s| ensures IsWhitespace(s[i]) {
          if i < |e| { assert s[i] == e[i]; }
        }
      }
    }
    assert r != [] ==> !IsWhitespace(s[|e| - |r|]) by {
      if r != [] { assert r[0] == e[|e| - |r|] == s[|e| - |r|]; }
    }
    r
  }

  /** What `trim()` keeps is the slice of `s` that ends where its trailing white space starts. */
  lemma TrimIsSlice(s: string)
    ensures var e := |TrimEnd(s)|; |Trim(s)| <= e <= |s| && Trim(s) == s[e - |Trim(s)|..e]
  {
    var e := TrimEnd(s);
    assert Trim(s) == e[|e| - |Trim(s)|..];
  }

  /** What `trim()` removes is white space. */
  lemma TrimBlankEdges(s: string)
    ensures var e := |TrimEnd(s)|; var b := e - |Trim(s)|;
      && 0 <= b <= e <= |s|
      && (forall i :: 0 <= i < b ==> IsWhitespace(s[i]))
      && (forall i :: e <= i < |s| ==> IsWhitespace(s[i]))
  {
    var e := TrimEnd(s);
    var b := |e| - |Trim(s)|;
    assert forall i :: 0 <= i < b ==> s[i] == e[i];
  }

  /** A trailing space never survives `trim()`: `(x + ' ').trim() == x.trim()`. */
  lemma TrimDropsTrailingSpace(x: string)
    ensures Trim(x + " ") == Trim(x)
  {
    assert (x + " ")[..|x|] == x;
  }

  /** Text holding a visible character shields what precedes it from `TrimEnd`. */
  lemma {:induction false} TrimEndAppend(p: string, x: string)
    requires HasVisible(x)
    ensures TrimEnd(p + x) == p + TrimEnd(x)
    decreases |x|
  {
    var n := |x|;
    assert (p + x)[|p + x| - 1] == x[n - 1];
    if IsWhitespace(x[n - 1]) {
      var i :| 0 <= i < n && !IsWhitespace(x[i]);
      assert x[..n - 1][i] == x[i];
      assert (p + x)[..|p + x| - 1] == p + x[..n - 1];
      TrimEndAppend(p, x[..n - 1]);
    }
  }

  /** A leading space never survives `trim()`: `(' ' + x).trim() == x.trim()`. */
  lemma TrimDropsLeadingSpace(x: string)
    ensures Trim(" " + x) == Trim(x)
  {
    if HasVisible(x) {
      TrimEndAppend(" ", x);
      assert (" " + TrimEnd(x))[1..] == TrimEnd(x);
    } else {
      assert !HasVisible(" " + x) by {
        forall i | 0 <= i < |" " + x| ensures IsWhitespace((" " + x)[i]) {
          if i > 0 {
            assert (" " + x)[i] == x[i - 1];
          }
        }
      }
    }
  }

  /** Text that starts with a visible character before text that starts with one loses only the second text's trailing white space. */
  lemma TrimAfterVisibleStart(p: string, x: string)
    requires p != [] && !IsWhitespace(p[0]) && x != [] && !IsWhitespace(x[0])
    ensures Trim(p + x) == p + Trim(x)
  {
    assert HasVisible(x) by {
      assert !IsWhitespace(x[0]);
    }
    TrimEndAppend(p, x);
    var e := TrimEnd(x);
    assert e != [] && e[0] == x[0];
    assert (p + e)[0] == p[0];
  }

  /** `toLowerCase` on one character; only the ASCII letters A-Z change. */
  function LowerChar(c: char): char
  {
    if 'A' <= c <= 'Z' then (c as int + 32) as char else c
  }

  /** `String.prototype.toLowerCase`, ASCII letters only. */
  function Lower(s: string): (r: string)
    ensures |r| == |s|
    ensures forall i :: 0 <= i < |s| ==> r[i] == LowerChar(s[i])
  {
    if s == [] then [] else [LowerChar(s[0])] + Lower(s[1..])
  }

  lemma LowerAppend(a: string, b: string)
    ensures Lower(a + b) == Lower(a) + Lower(b)
  {
    var l, r := Lower(a + b), Lower(a) + Lower(b);
    forall i | 0 <= i < |l| ensures l[i] == r[i] {
      if i < |a| {
        assert (a + b)[i] == a[i];
      } else {
        assert (a + b)[i] == b[i - |a|];
      }
    }
  }

  /** `needle` occurs in `hay` starting at position `i`. */
  predicate OccursAt(hay: string, needle: string, i: int)
  {
    0 <= i <= |hay| - |needle| && hay[i..i + |needle|] == needle
  }

  /** `needle` occurs in `hay` at some position: the meaning of `hay.includes(needle)`. */
  ghost predicate Occurs(hay: string, needle: string)
  {
    exists i :: OccursAt(hay, needle, i)
  }

  /** `hay.includes(needle)`, as the left-to-right scan over start positions. */
  predicate Contains(hay: string, needle: string)
    ensures needle == [] ==> Contains(hay, needle)
    ensures Contains(hay, needle) ==> |needle| <= |hay|
    decreases |hay|
  {
    (|needle| <= |hay| && hay[..|needle|] == needle) || (hay != [] && Contains(hay[1..], needle))
  }

  /** The scan finds `needle` exactly when it occurs somewhere in `hay`. */
  lemma {:induction false} ContainsIffOccurs(hay: string, needle: string)
    ensures Contains(hay, needle) <==> Occurs(hay, needle)
    decreases |hay|
  {
    if |needle| <= |hay| && hay[..|needle|] == needle {
      assert OccursAt(hay, needle, 0);
    } else if hay == [] {
    } else {
      ContainsIffOccurs(hay[1..], needle);
      if Occurs(hay, needle) {
        var i :| OccursAt(hay, needle, i);
        assert i != 0;
        assert hay[1..][i - 1..i - 1 + |needle|] == hay[i..i + |needle|];
        assert OccursAt(hay[1..], needle, i - 1);
      }
      if Occurs(hay[1..], needle) {
        var i :| OccursAt(hay[1..], needle, i);
        assert hay[i + 1..i + 1 + |needle|] == hay[1..][i..i + |needle|];
        assert OccursAt(hay, needle, i + 1);
      }
    }
  }

  /** `s.split(sep)` for a one-character separator: the pieces between separators, at least one. */
  function Split(s: string, sep: char): (r: seq<string>)
    ensures |r| >= 1
    decreases |s|
  {
    if s == [] then [""]
    else
      var rest := Split(s[1..], sep);
      if s[0] == sep then [""] + rest else [[s[0]] + rest[0]] + rest[1..]
  }

  /** No piece holds the separator. */
  lemma {:induction false} SplitPiecesLackSeparator(s: string, sep: char)
    ensures forall w :: w in Split(s, sep) ==> sep !in w
    decreases |s|
  {
    if s != [] {
      SplitPiecesLackSeparator(s[1..], sep);
      var rest := Split(s[1..], sep);
      forall w | w in Split(s, sep) ensures sep !in w {
        if s[0] != sep && w == [s[0]] + rest[0] {
          assert rest[0] in rest;
        } else if w != [s[0]] + rest[0] {
          assert w == "" || w in rest;
        }
      }
    }
  }

  /** `Split` on a string given by its first character and the rest. */
  lemma SplitCons(c: char, t: string, sep: char)
    ensures Split([c] + t, sep)
      == if c == sep then [""] + Split(t, sep) else [[c] + Split(t, sep)[0]] + Split(t, sep)[1..]
  {
    assert ([c] + t)[1..] == t;
  }

  /** Splitting at a separator splits the two sides independently. */
  lemma {:induction false} SplitAtSeparator(a: string, sep: char, b: string)
    ensures Split(a + [sep] + b, sep) == Split(a, sep) + Split(b, sep)
    decreases |a|
  {
    if a == [] {
      assert a + [sep] + b == [sep] + b;
      SplitCons(sep, b, sep);
    } else {
      SplitAtSeparator(a[1..], sep, b);
      SplitAtSeparatorStep(a[0], a[1..], sep, b);
      assert [a[0]] + a[1..] == a;
    }
  }

  /** The step of `SplitAtSeparator`: one more character in front. */
  lemma SplitAtSeparatorStep(c: char, a: string, sep: char, b: string)
    requires Split(a + [sep] + b, sep) == Split(a, sep) + Split(b, sep)
    ensures Split([c] + a + [sep] + b, sep) == Split([c] + a, sep) + Split(b, sep)
  {
    var t := a + [sep] + b;
    assert [c] + a + [sep] + b == [c] + t;
    SplitCons(c, t, sep);
    SplitCons(c, a, sep);
    if c == sep {
      AppendAssoc([""], Split(a, sep), Split(b, sep));
    } else {
      HeadMerge([c], Split(t, sep), Split(a, sep), Split(b, sep));
    }
  }

  /** A string without the separator is a single piece. */
  lemma {:induction false} SplitWithoutSeparator(s: string, sep: char)
    requires sep !in s
    ensures Split(s, sep) == [s]
    decreases |s|
  {
    if s != [] {
      SplitWithoutSeparator(s[1..], sep);
      assert [s[0]] + s[1..] == s;
    }
  }

  /** `parts.join(sep)`. */
  function Join(parts: seq<string>, sep: string): (r: string)
    ensures parts == [] ==> r == ""
    ensures parts != [] ==> |parts[0]| <= |r| && r[..|parts[0]|] == parts[0]
    ensures parts != [] ==> |parts[|parts| - 1]| <= |r| && r[|r| - |parts[|parts| - 1]|..] == parts[|parts| - 1]
    decreases |parts|
  {
    if parts == [] then ""
    else if |parts| == 1 then parts[0]
    else
      var rest := Join(parts[1..], sep);
      var r := parts[0] + sep + rest;
      assert r[|r| - |rest|..] == rest;
      r
  }

  /** Joining a part in front of other parts puts the separator between it and their join. */
  lemma JoinCons(p: string, ps: seq<string>, sep: string)
    requires ps != []
    ensures Join([p] + ps, sep) == p + sep + Join(ps, sep)
  {
    assert ([p] + ps)[1..] == ps;
  }

  /** A sentence terminator, the class `[.!?]`. */
  predicate IsTerminator(c: char)
  {
    c == '.' || c == '!' || c == '?'
  }

  /** No character of `s` is a sentence terminator. */
  predicate TerminatorFree(s: string)
  {
    forall i :: 0 <= i < |s| ==> !IsTerminator(s[i])
  }

  /** The length of the longest prefix of `s` without a terminator. */
  function NonTerminatorRun(s: string): (n: nat)
    ensures n <= |s|
    ensures forall i :: 0 <= i < n ==> !IsTerminator(s[i])
    ensures n < |s| ==> IsTerminator(s[n])
  {
    if s != [] && !IsTerminator(s[0]) then 1 + NonTerminatorRun(s[1..]) else 0
  }

  /** The length of the longest prefix of `s` made of terminators. */
  function TerminatorRun(s: string): (n: nat)
    ensures n <= |s|
    ensures forall i :: 0 <= i < n ==> IsTerminator(s[i])
    ensures n < |s| ==> !IsTerminator(s[n])
  {
    if s != [] && IsTerminator(s[0]) then 1 + TerminatorRun(s[1..]) else 0
  }
}
