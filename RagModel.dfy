/**
  The context pipeline of the answering service (backend/ragModel.js): the
  raw corpus is normalised, cut into sentence-aligned chunks, the chunks are
  ranked against the question, the best ones are summarised by the remote
  text generator, the summaries are packed into one bounded "mega-chunk",
  a substring check decides between it and the full corpus, and the
  generator answers the question from that context.
*/
module RagModel {
  import opened Wrappers
  import opened JsString
  import opened Sequences

  /** The text `s1 + ' ' + s2 + ' ' + ... + sk + ' '` that a loop doing `acc += piece + ' '` builds. */
  function Spaced(pieces: seq<string>): string
  {
    if pieces == [] then "" else Spaced(pieces[..|pieces| - 1]) + pieces[|pieces| - 1] + " "
  }

  /** Once the appended pieces are trimmed, the last separating space is gone. */
  lemma SpacedTrimmedLength(pieces: seq<string>)
    requires pieces != []
    ensures |Trim(Spaced(pieces))| <= |Spaced(pieces)| - 1
  {
    var n := |pieces|;
    assert Spaced(pieces) == (Spaced(pieces[..n - 1]) + pieces[n - 1]) + " ";
    TrimDropsTrailingSpace(Spaced(pieces[..n - 1]) + pieces[n - 1]);
  }

  /*** preprocessText, white-space stage (ragModel.js:15-25) ***/

  /** The characters of `s` that are not white space, in order. */
  function Visible(s: string): string
  {
    if s == [] then [] else (if IsWhitespace(s[0]) then [] else [s[0]]) + Visible(s[1..])
  }

  lemma {:induction false} VisibleAppend(a: string, b: string)
    ensures Visible(a + b) == Visible(a) + Visible(b)
    decreases |a|
  {
    if a == [] {
      assert a + b == b;
    } else {
      assert (a + b)[0] == a[0];
      assert (a + b)[1..] == a[1..] + b;
      VisibleAppend(a[1..], b);
    }
  }

  lemma {:induction false} VisibleOfBlank(s: string)
    requires forall i :: 0 <= i < |s| ==> IsWhitespace(s[i])
    ensures Visible(s) == []
    decreases |s|
  {
    if s != [] {
      VisibleOfBlank(s[1..]);
    }
  }

  /** Every white-space character is a plain space and no two of them are adjacent. */
  predicate SingleSpaced(s: string)
  {
    && (forall i :: 0 <= i < |s| && IsWhitespace(s[i]) ==> s[i] == ' ')
    && (forall i :: 0 <= i < |s| - 1 ==> !(IsWhitespace(s[i]) && IsWhitespace(s[i + 1])))
  }

  /** `s.replace(/\s+/g, ' ')`: every maximal run of white space becomes one space. */
  function CollapseRuns(s: string): (r: string)
    ensures r == [] <==> s == []
    ensures r != [] ==> (IsWhitespace(r[0]) <==> IsWhitespace(s[0]))
    ensures SingleSpaced(r)
    decreases |s|
  {
    if s == [] then []
    else if IsWhitespace(s[0]) then " " + CollapseRuns(TrimStart(s))
    else [s[0]] + CollapseRuns(s[1..])
  }

  /** Collapsing white space keeps every other character, in order. */
  lemma {:induction false} CollapseKeepsText(s: string)
    ensures Visible(CollapseRuns(s)) == Visible(s)
    decreases |s|
  {
    if s == [] {
    } else if IsWhitespace(s[0]) {
      var t := TrimStart(s);
      CollapseKeepsText(t);
      VisibleAfterBlank(s);
      VisibleAppend(" ", CollapseRuns(t));
    } else {
      CollapseKeepsText(s[1..]);
      VisibleAppend([s[0]], CollapseRuns(s[1..]));
    }
  }

  lemma SliceSingleSpaced(s: string, b: nat, e: nat)
    requires b <= e <= |s| && SingleSpaced(s)
    ensures SingleSpaced(s[b..e])
  {
    var r := s[b..e];
    assert forall i :: 0 <= i < |r| ==> r[i] == s[b + i];
  }

  lemma VisibleIgnoresBlankEdges(front: string, r: string, back: string)
    requires forall i :: 0 <= i < |front| ==> IsWhitespace(front[i])
    requires forall i :: 0 <= i < |back| ==> IsWhitespace(back[i])
    ensures Visible(front + r + back) == Visible(r)
  {
    VisibleOfBlank(front);
    VisibleOfBlank(back);
    VisibleAppend(front + r, back);
    VisibleAppend(front, r);
  }

  /** A slice that leaves out only white space keeps every visible character. */
  lemma VisibleOfSlice(s: string, b: nat, e: nat)
    requires b <= e <= |s|
    requires forall i :: 0 <= i < b ==> IsWhitespace(s[i])
    requires forall i :: e <= i < |s| ==> IsWhitespace(s[i])
    ensures Visible(s[b..e]) == Visible(s)
  {
    var front, back := s[..b], s[e..];
    assert forall i :: 0 <= i < |front| ==> front[i] == s[i];
    assert forall i :: 0 <= i < |back| ==> back[i] == s[e + i];
    SliceSplit(s, b, e);
    VisibleIgnoresBlankEdges(front, s[b..e], back);
  }

  /** Trimming keeps every visible character. */
  lemma TrimKeepsVisible(s: string)
    ensures Visible(Trim(s)) == Visible(s)
  {
    TrimIsSlice(s);
    TrimBlankEdges(s);
    var e := |TrimEnd(s)|;
    VisibleOfSlice(s, e - |Trim(s)|, e);
  }

  /** Trimming keeps single spacing. */
  lemma TrimKeepsSpacing(s: string)
    requires SingleSpaced(s)
    ensures SingleSpaced(Trim(s))
  {
    TrimIsSlice(s);
    var e := |TrimEnd(s)|;
    SliceSingleSpaced(s, e - |Trim(s)|, e);
  }

  /** The length of the longest prefix of `s` without white space. */
  function WordRun(s: string): (n: nat)
    ensures n <= |s|
    ensures forall i :: 0 <= i < n ==> !IsWhitespace(s[i])
    ensures n < |s| ==> IsWhitespace(s[n])
  {
    if s != [] && !IsWhitespace(s[0]) then 1 + WordRun(s[1..]) else 0
  }

  /** The words of `s`: its maximal runs of characters that are not white space, in order. */
  function Tokens(s: string): seq<string>
    decreases |s|
  {
    if s == [] then []
    else if IsWhitespace(s[0]) then Tokens(TrimStart(s))
    else
      var n := WordRun(s);
      [s[..n]] + Tokens(s[n..])
  }

  /** A word: non-empty, with no white space. */
  predicate IsWord(w: string)
  {
    w != [] && forall j :: 0 <= j < |w| ==> !IsWhitespace(w[j])
  }

  /** At a visible character, the first token is the word that starts there, and the collapse keeps that word. */
  lemma TokensAtWord(s: string)
    requires s != [] && !IsWhitespace(s[0])
    ensures var n := WordRun(s);
      && IsWord(s[..n]) && (s[n..] == [] || IsWhitespace(s[n..][0]))
      && Tokens(s) == [s[..n]] + Tokens(s[n..])
      && CollapseRuns(s) == s[..n] + CollapseRuns(s[n..])
      && Visible(s) == s[..n] + Visible(s[n..])
  {
    var n := WordRun(s);
    var v, rest := s[..n], s[n..];
    assert v[0] == s[0];
    assert s == v + rest;
    CollapseAfterWord(v, rest);
    VisibleAppend(v, rest);
    VisibleOfWord(v);
  }

  /** Leading white space holds no visible character. */
  lemma VisibleAfterBlank(s: string)
    ensures Visible(TrimStart(s)) == Visible(s)
  {
    var t := TrimStart(s);
    VisibleOfSlice(s, |s| - |t|, |s|);
    assert s[|s| - |t|..|s|] == t;
  }

  /** At white space, both the collapse and the tokens skip the run. */
  lemma AtBlank(s: string)
    requires s != [] && IsWhitespace(s[0])
    ensures var t := TrimStart(s);
      && |t| < |s| && (t == [] || !IsWhitespace(t[0]))
      && Tokens(s) == Tokens(t)
      && CollapseRuns(s) == " " + CollapseRuns(t)
      && Visible(s) == Visible(t)
  {
    VisibleAfterBlank(s);
  }

  /** Text that is empty or starts with a visible character has tokens exactly when it is not empty. */
  lemma TokensEmptyIff(t: string)
    requires t == [] || !IsWhitespace(t[0])
    ensures Tokens(t) == [] <==> t == []
  {
  }

  /** Text without white space is its own visible text. */
  lemma {:induction false} VisibleOfWord(v: string)
    requires forall i :: 0 <= i < |v| ==> !IsWhitespace(v[i])
    ensures Visible(v) == v
    decreases |v|
  {
    if v != [] {
      VisibleOfWord(v[1..]);
      assert [v[0]] + v[1..] == v;
    }
  }

  /** The tokens are words, and together they are exactly the visible characters. */
  lemma {:induction false} TokensAreWords(s: string)
    ensures forall w :: w in Tokens(s) ==> IsWord(w)
    ensures Flatten(Tokens(s)) == Visible(s)
    decreases |s|
  {
    if s == [] {
    } else if IsWhitespace(s[0]) {
      var t := TrimStart(s);
      AtBlank(s);
      TokensAreWords(t);
    } else {
      var n := WordRun(s);
      TokensAtWord(s);
      TokensAreWords(s[n..]);
      FlattenCons(s[..n], Tokens(s[n..]));
    }
  }

  /** A word in front passes through the collapse unchanged. */
  lemma {:induction false} CollapseAfterWord(v: string, rest: string)
    requires forall i :: 0 <= i < |v| ==> !IsWhitespace(v[i])
    ensures CollapseRuns(v + rest) == v + CollapseRuns(rest)
    decreases |v|
  {
    if v == [] {
      assert v + rest == rest;
    } else {
      assert (v + rest)[1..] == v[1..] + rest;
      CollapseAfterWord(v[1..], rest);
      assert [v[0]] + v[1..] == v;
    }
  }

  /** A word, one space, then the collapse of text whose trim joins its tokens: the trim joins the word and those tokens. */
  lemma JoinAfterWord(v: string, t: string)
    requires IsWord(v)
    requires t == [] || !IsWhitespace(t[0])
    requires Trim(CollapseRuns(t)) == Join(Tokens(t), " ")
    ensures Trim(v + " " + CollapseRuns(t)) == Join([v] + Tokens(t), " ")
  {
    TokensEmptyIff(t);
    if t == [] {
      LastWord(v);
    } else {
      WordBeforeWords(v, CollapseRuns(t), Tokens(t));
    }
  }

  /** A word followed by one space trims to itself, the join of that word alone. */
  lemma LastWord(v: string)
    requires IsWord(v)
    ensures Trim(v + " " + CollapseRuns([])) == Join([v] + Tokens([]), " ")
  {
    assert NoEdgeWhitespace(v);
    assert v + " " + CollapseRuns([]) == v + " ";
    assert [v] + Tokens([]) == [v];
    TrimDropsTrailingSpace(v);
  }

  lemma WordBeforeWords(v: string, x: string, ts: seq<string>)
    requires IsWord(v) && x != [] && !IsWhitespace(x[0]) && ts != []
    requires Trim(x) == Join(ts, " ")
    ensures Trim(v + " " + x) == Join([v] + ts, " ")
  {
    TrimAfterVisibleStart(v + " ", x);
    JoinCons(v, ts, " ");
  }

  /**
    Collapsing white-space runs and trimming yields the words of `s`
    separated by single spaces: every run between two words becomes one
    space, and runs at either end disappear.
  */
  lemma {:induction false} CollapseTrimJoinsTokens(s: string)
    ensures Trim(CollapseRuns(s)) == Join(Tokens(s), " ")
    decreases |s|
  {
    if s == [] {
    } else if IsWhitespace(s[0]) {
      var t := TrimStart(s);
      AtBlank(s);
      CollapseTrimJoinsTokens(t);
      TrimDropsLeadingSpace(CollapseRuns(t));
    } else {
      var n := WordRun(s);
      var v, rest := s[..n], s[n..];
      TokensAtWord(s);
      if rest == [] {
        assert NoEdgeWhitespace(v);
      } else {
        var t := TrimStart(rest);
        AtBlank(rest);
        CollapseTrimJoinsTokens(t);
        JoinAfterWord(v, t);
        AppendAssoc(v, " ", CollapseRuns(t));
      }
    }
  }

  /**
    `preprocessText`. The two boilerplate substitutions run first and are
    given here as the uninterpreted `boilerplate`; the white-space stage
    that follows them is modelled exactly.
  */
  function PreprocessText(boilerplate: string -> string, text: string): (cleaned: string)
    ensures NoEdgeWhitespace(cleaned)
    ensures SingleSpaced(cleaned)
    ensures Visible(cleaned) == Visible(boilerplate(text))
    ensures cleaned == Join(Tokens(boilerplate(text)), " ")
  {
    var collapsed := CollapseRuns(boilerplate(text));
    CollapseTrimJoinsTokens(boilerplate(text));
    CollapseKeepsText(boilerplate(text));
    TrimKeepsSpacing(collapsed);
    TrimKeepsVisible(collapsed);
    Trim(collapsed)
  }

  /*** chunkText (ragModel.js:27-51) ***/

  /**
    A match of `/[^.!?]+[.!?]+/`: it starts with a non-terminator, ends with
    a terminator, and once a terminator has appeared only terminators follow.
  */
  predicate IsSentence(s: string)
  {
    && |s| >= 2 && !IsTerminator(s[0]) && IsTerminator(s[|s| - 1])
    && forall i, j :: 0 <= i < j < |s| && IsTerminator(s[i]) ==> IsTerminator(s[j])
  }

  /**
    `text.match(/[^.!?]+[.!?]+/g) || []`: the global matches from left to
    right. A terminator where no match can start is skipped; text with no
    terminator after it never matches and is dropped.
  */
  function Sentences(text: string): (r: seq<string>)
    ensures forall m :: m in r ==> IsSentence(m)
    decreases |text|
  {
    if text == [] then []
    else if IsTerminator(text[0]) then Sentences(text[1..])
    else
      var body := NonTerminatorRun(text);
      if body == |text| then []
      else
        SentencePrefixIsSentence(text, body);
        [text[..SentenceEnd(text, body)]] + Sentences(text[SentenceEnd(text, body)..])
  }

  /** Where the match that starts at 0 ends: after the terminators that follow the first `body` characters. */
  function SentenceEnd(text: string, body: nat): (end: nat)
    requires body < |text| && IsTerminator(text[body])
    ensures body < end <= |text|
  {
    body + TerminatorRun(text[body..])
  }

  /** The text after the last terminator, which no match reaches. */
  function Unterminated(text: string): string
    decreases |text|
  {
    if text == [] then []
    else if IsTerminator(text[0]) then Unterminated(text[1..])
    else
      var body := NonTerminatorRun(text);
      if body == |text| then text else Unterminated(text[SentenceEnd(text, body)..])
  }

  /** After a sentence's terminators comes either the end of the text or a non-terminator. */
  lemma AfterSentenceEnd(text: string, body: nat)
    requires body < |text| && IsTerminator(text[body])
    ensures TerminatorRun(text[SentenceEnd(text, body)..]) == 0
  {
    var end := SentenceEnd(text, body);
    if end < |text| {
      assert text[end..][0] == text[body..][end - body];
    }
  }

  /** One step of the match: a sentence, then the matches of the rest. */
  lemma SentencesStep(text: string)
    requires text != [] && !IsTerminator(text[0]) && NonTerminatorRun(text) < |text|
    ensures var end := SentenceEnd(text, NonTerminatorRun(text));
      && Sentences(text) == [text[..end]] + Sentences(text[end..])
      && Unterminated(text) == Unterminated(text[end..])
      && TerminatorRun(text) == 0
  {
  }

  lemma CoverAfterSentence(text: string)
    requires text != [] && !IsTerminator(text[0]) && NonTerminatorRun(text) < |text|
    requires var rest := text[SentenceEnd(text, NonTerminatorRun(text))..];
      rest[TerminatorRun(rest)..] == Flatten(Sentences(rest)) + Unterminated(rest)
    ensures text[0..] == Flatten(Sentences(text)) + Unterminated(text)
  {
    var body := NonTerminatorRun(text);
    var end := SentenceEnd(text, body);
    var rest := text[end..];
    AfterSentenceEnd(text, body);
    SentencesStep(text);
    FlattenCons(text[..end], Sentences(rest));
    SliceThenSuffix(text, end, Flatten(Sentences(rest)), Unterminated(rest));
  }

  /**
    After the leading run of terminators (never part of a match), the text is
    its sentences in order followed by the trailing unterminated text,
    which holds no terminator; a text without terminators has no sentences.
  */
  lemma {:induction false} SentencesCoverText(text: string)
    ensures text[TerminatorRun(text)..] == Flatten(Sentences(text)) + Unterminated(text)
    ensures TerminatorFree(Unterminated(text))
    ensures TerminatorFree(text) ==> Sentences(text) == []
    decreases |text|
  {
    if text == [] {
    } else if IsTerminator(text[0]) {
      var tail := text[1..];
      SentencesCoverText(tail);
      assert TerminatorRun(text) == 1 + TerminatorRun(tail);
      assert text[TerminatorRun(text)..] == tail[TerminatorRun(tail)..];
    } else if NonTerminatorRun(text) == |text| {
      assert Sentences(text) == [];
    } else {
      var end := SentenceEnd(text, NonTerminatorRun(text));
      SentencesCoverText(text[end..]);
      CoverAfterSentence(text);
      SentencesStep(text);
      assert !TerminatorFree(text) by {
        assert IsTerminator(text[NonTerminatorRun(text)]);
      }
    }
  }

  /** The matched text up to a sentence's end is one match. */
  lemma SentencePrefixIsSentence(text: string, body: nat)
    requires 0 < body < |text| && IsTerminator(text[body])
    requires forall i :: 0 <= i < body ==> !IsTerminator(text[i])
    ensures IsSentence(text[..SentenceEnd(text, body)])
  {
    var end := SentenceEnd(text, body);
    var m := text[..end];
    forall i | body <= i < end ensures IsTerminator(m[i]) {
      assert m[i] == text[body..][i - body];
    }
    forall i | 0 <= i < body ensures !IsTerminator(m[i]) {
      assert m[i] == text[i];
    }
  }

  /** The state of `chunkText`'s loop: the chunks pushed so far, as groups of sentences, and the open chunk. */
  datatype Packing = Packing(sealed: seq<seq<string>>, open: seq<string>)

  /**
    The greedy packing of `chunkText` after the given sentences: a sentence
    joins the open chunk when the open chunk's text (with its trailing
    spaces) plus the sentence is at most `maxLength` long; otherwise the
    open chunk is pushed, even when it is still empty, and a new one starts
    with the sentence.
  */
  function Pack(sentences: seq<string>, maxLength: nat): Packing
    decreases |sentences|
  {
    if sentences == [] then Packing([], [])
    else
      var p := Pack(sentences[..|sentences| - 1], maxLength);
      var sentence := sentences[|sentences| - 1];
      if |Spaced(p.open)| + |sentence| <= maxLength then Packing(p.sealed, p.open + [sentence])
      else Packing(p.sealed + [p.open], [sentence])
  }

  /** The sentence groups behind the chunks: the pushed ones, then the open one if it is not empty. */
  function Groups(sentences: seq<string>, maxLength: nat): seq<seq<string>>
  {
    var p := Pack(sentences, maxLength);
    if p.open == [] then p.sealed else p.sealed + [p.open]
  }

  /** Each chunk is the trim of its sentences, each followed by a space. */
  function ChunksOf(groups: seq<seq<string>>): seq<string>
  {
    seq(|groups|, i requires 0 <= i < |groups| => Trim(Spaced(groups[i])))
  }

  /** A group's text is within `maxLength + 1` (its last space included), or the group is one over-long sentence. */
  predicate FitsOrSingle(group: seq<string>, maxLength: nat)
  {
    |Spaced(group)| <= maxLength + 1 || (|group| == 1 && |group[0]| > maxLength)
  }

  /** Each group but the first is non-empty, and its first sentence did not fit into the group before it. */
  predicate Greedy(groups: seq<seq<string>>, maxLength: nat)
  {
    forall j :: 1 <= j < |groups| ==> groups[j] != [] && |Spaced(groups[j - 1])| + |groups[j][0]| > maxLength
  }

  /** What stays true of the packing while `chunkText`'s loop runs. */
  ghost predicate WellPacked(sentences: seq<string>, p: Packing, maxLength: nat)
  {
    && Flatten(p.sealed) + p.open == sentences
    && (sentences == [] ==> p == Packing([], []))
    && (sentences != [] ==> p.open != [])
    && (forall j :: 0 <= j < |p.sealed| && p.sealed[j] == [] ==> j == 0 && |sentences[0]| > maxLength)
    && (sentences != [] && |sentences[0]| > maxLength ==> p.sealed != [] && p.sealed[0] == [])
    && (forall g :: g in p.sealed + [p.open] ==> FitsOrSingle(g, maxLength))
    && (forall g, x :: g in p.sealed + [p.open] && x in g ==> x in sentences)
    && Greedy(p.sealed + [p.open], maxLength)
  }

  /** `Pack` on one more sentence, in terms of `Pack` on the ones before it. */
  lemma PackSnoc(pre: seq<string>, s: string, maxLength: nat)
    ensures var p := Pack(pre, maxLength);
      Pack(pre + [s], maxLength)
        == if |Spaced(p.open)| + |s| <= maxLength then Packing(p.sealed, p.open + [s])
           else Packing(p.sealed + [p.open], [s])
  {
    assert (pre + [s])[..|pre + [s]| - 1] == pre;
  }

  /** A sentence that fits joins the open group and keeps the packing well formed. */
  lemma PackJoinKeeps(pre: seq<string>, p: Packing, s: string, maxLength: nat)
    requires WellPacked(pre, p, maxLength)
    requires |Spaced(p.open)| + |s| <= maxLength
    ensures WellPacked(pre + [s], Packing(p.sealed, p.open + [s]), maxLength)
  {
    var sentences := pre + [s];
    assert pre != [] ==> sentences[0] == pre[0];
    assert pre == [] ==> p.sealed == [] && p.open == [];
    AppendAssoc(Flatten(p.sealed), p.open, [s]);
    JoinGroups(p.sealed, p.open, s, pre, maxLength);
    GreedyJoin(p.sealed, p.open, s, maxLength);
  }

  /** Extending the last group by a sentence that fits keeps every group within bounds and made of the sentences. */
  lemma JoinGroups(sealed: seq<seq<string>>, open: seq<string>, s: string, sentences: seq<string>, maxLength: nat)
    requires forall g :: g in sealed + [open] ==> FitsOrSingle(g, maxLength)
    requires forall g, x :: g in sealed + [open] && x in g ==> x in sentences
    requires |Spaced(open)| + |s| <= maxLength
    ensures forall g :: g in sealed + [open + [s]] ==> FitsOrSingle(g, maxLength)
    ensures forall g, x :: g in sealed + [open + [s]] && x in g ==> x in sentences + [s]
  {
    assert Spaced(open + [s]) == Spaced(open) + s + " ";
    forall g | g in sealed + [open + [s]] ensures g in sealed || g == open + [s] {
    }
    assert open in sealed + [open];
  }

  /** Extending the last group keeps the groups greedy. */
  lemma GreedyJoin(sealed: seq<seq<string>>, open: seq<string>, s: string, maxLength: nat)
    requires Greedy(sealed + [open], maxLength)
    ensures Greedy(sealed + [open + [s]], maxLength)
  {
    var gs := sealed + [open];
    var hs := sealed + [open + [s]];
    forall j | 1 <= j < |hs|
      ensures hs[j] != [] && |Spaced(hs[j - 1])| + |hs[j][0]| > maxLength
    {
      assert hs[j - 1] == gs[j - 1];
      if j < |sealed| {
        assert hs[j] == gs[j];
      } else {
        assert gs[j] == open;
        assert hs[j][0] == open[0];
      }
    }
  }

  /** A sentence that does not fit seals the open group and starts the next one. */
  lemma PackPushKeeps(pre: seq<string>, p: Packing, s: string, maxLength: nat)
    requires WellPacked(pre, p, maxLength)
    requires |Spaced(p.open)| + |s| > maxLength
    ensures WellPacked(pre + [s], Packing(p.sealed + [p.open], [s]), maxLength)
  {
    var sentences := pre + [s];
    assert pre != [] ==> sentences[0] == pre[0];
    assert p.open == [] ==> pre == [] && p.sealed == [];
    FlattenSnoc(p.sealed, p.open);
    PushGroups(p.sealed + [p.open], s, pre, maxLength);
    GreedyPush(p.sealed + [p.open], s, maxLength);
  }

  /** A new group holding one sentence keeps every group within bounds and made of the sentences. */
  lemma PushGroups(gs: seq<seq<string>>, s: string, sentences: seq<string>, maxLength: nat)
    requires forall g :: g in gs ==> FitsOrSingle(g, maxLength)
    requires forall g, x :: g in gs && x in g ==> x in sentences
    ensures forall g :: g in gs + [[s]] ==> FitsOrSingle(g, maxLength)
    ensures forall g, x :: g in gs + [[s]] && x in g ==> x in sentences + [s]
  {
    SpacedSingle(s);
  }

  /** Appending a group that did not fit after the last one keeps the groups greedy. */
  lemma GreedyPush(gs: seq<seq<string>>, s: string, maxLength: nat)
    requires gs != [] && Greedy(gs, maxLength)
    requires |Spaced(gs[|gs| - 1])| + |s| > maxLength
    ensures Greedy(gs + [[s]], maxLength)
  {
    var hs := gs + [[s]];
    forall j | 1 <= j < |hs|
      ensures hs[j] != [] && |Spaced(hs[j - 1])| + |hs[j][0]| > maxLength
    {
      assert hs[j - 1] == gs[j - 1];
      if j < |gs| {
        assert hs[j] == gs[j];
      }
    }
  }

  lemma {:induction false} PackIsWellPacked(sentences: seq<string>, maxLength: nat)
    ensures WellPacked(sentences, Pack(sentences, maxLength), maxLength)
    decreases |sentences|
  {
    if sentences != [] {
      var pre := sentences[..|sentences| - 1];
      var s := sentences[|sentences| - 1];
      PackIsWellPacked(pre, maxLength);
      assert sentences == pre + [s];
      PackSnoc(pre, s, maxLength);
      var p := Pack(pre, maxLength);
      if |Spaced(p.open)| + |s| <= maxLength {
        PackJoinKeeps(pre, p, s, maxLength);
      } else {
        PackPushKeeps(pre, p, s, maxLength);
      }
    }
  }

  /** One more group adds its chunk at the end. */
  lemma ChunksOfSnoc(groups: seq<seq<string>>, g: seq<string>)
    ensures ChunksOf(groups + [g]) == ChunksOf(groups) + [Trim(Spaced(g))]
  {
  }

  /**
    `chunkText`. The loop keeps the chunks pushed so far and the open chunk
    as text; the result is the trim of each group of the greedy packing.
  */
  method ChunkText(text: string, maxLength: nat) returns (chunks: seq<string>)
    ensures chunks == ChunksOf(Groups(Sentences(text), maxLength))
  {
    chunks := [];
    var sentences := Sentences(text);
    var currentChunk := "";
    for i := 0 to |sentences|
      invariant chunks == ChunksOf(Pack(sentences[..i], maxLength).sealed)
      invariant currentChunk == Spaced(Pack(sentences[..i], maxLength).open)
    {
      var sentence := sentences[i];
      ChunkStep(sentences, i, maxLength);
      if |currentChunk| + |sentence| <= maxLength {
        currentChunk := currentChunk + sentence + " ";
      } else {
        chunks := chunks + [Trim(currentChunk)];
        currentChunk := sentence + " ";
      }
    }
    ChunkLast(sentences, maxLength);
    if currentChunk != "" {
      chunks := chunks + [Trim(currentChunk)];
    }
  }

  /** One sentence more, in the terms of `chunkText`'s loop: the open chunk's text grows, or it is pushed and restarted. */
  lemma ChunkStep(sentences: seq<string>, i: nat, maxLength: nat)
    requires i < |sentences|
    ensures var p := Pack(sentences[..i], maxLength);
      var q := Pack(sentences[..i + 1], maxLength);
      var s := sentences[i];
      && (|Spaced(p.open)| + |s| <= maxLength ==>
            q.sealed == p.sealed && Spaced(q.open) == Spaced(p.open) + s + " ")
      && (|Spaced(p.open)| + |s| > maxLength ==>
            ChunksOf(q.sealed) == ChunksOf(p.sealed) + [Trim(Spaced(p.open))] && Spaced(q.open) == s + " ")
  {
    var s := sentences[i];
    var p := Pack(sentences[..i], maxLength);
    assert sentences[..i + 1] == sentences[..i] + [s];
    PackSnoc(sentences[..i], s, maxLength);
    if |Spaced(p.open)| + |s| > maxLength {
      ChunksOfSnoc(p.sealed, p.open);
      SpacedSingle(s);
    }
  }

  /** After the last sentence, the open chunk is pushed exactly when its text is not empty. */
  lemma ChunkLast(sentences: seq<string>, maxLength: nat)
    ensures var p := Pack(sentences[..|sentences|], maxLength);
      && (Spaced(p.open) == "" ==> ChunksOf(Groups(sentences, maxLength)) == ChunksOf(p.sealed))
      && (Spaced(p.open) != "" ==>
            ChunksOf(Groups(sentences, maxLength)) == ChunksOf(p.sealed) + [Trim(Spaced(p.open))])
  {
    assert sentences[..|sentences|] == sentences;
    var p := Pack(sentences, maxLength);
    if p.open != [] {
      SpacedTrimmedLength(p.open);
      ChunksOfSnoc(p.sealed, p.open);
    }
  }

  /**
    The chunks are the consecutive groups of the matched sentences, in
    order, each the trim of its sentences followed by spaces, and a group
    ends only where its next sentence did not fit.
  */
  lemma ChunksFollowSentences(text: string, maxLength: nat)
    ensures var groups := Groups(Sentences(text), maxLength);
      && Flatten(groups) == Sentences(text)
      && |ChunksOf(groups)| == |groups|
      && (forall i :: 0 <= i < |groups| ==> ChunksOf(groups)[i] == Trim(Spaced(groups[i])))
      && Greedy(groups, maxLength)
  {
    var sentences := Sentences(text);
    PackIsWellPacked(sentences, maxLength);
    var p := Pack(sentences, maxLength);
    if p.open != [] {
      assert Flatten(p.sealed + [p.open]) == Flatten(p.sealed) + p.open by {
        assert (p.sealed + [p.open])[..|p.sealed|] == p.sealed;
      }
    }
  }

  /**
    Every chunk is at most `maxLength` long, or it is the trim of exactly
    one sentence that is itself longer than `maxLength`.
  */
  lemma ChunkLengthBound(text: string, maxLength: nat)
    ensures var groups := Groups(Sentences(text), maxLength);
      forall i :: 0 <= i < |groups| ==>
        || |ChunksOf(groups)[i]| <= maxLength
        || (|groups[i]| == 1 && |groups[i][0]| > maxLength && ChunksOf(groups)[i] == Trim(groups[i][0]))
  {
    var sentences := Sentences(text);
    PackIsWellPacked(sentences, maxLength);
    var p := Pack(sentences, maxLength);
    var groups := Groups(sentences, maxLength);
    forall i | 0 <= i < |groups|
      ensures || |ChunksOf(groups)[i]| <= maxLength
              || (|groups[i]| == 1 && |groups[i][0]| > maxLength && ChunksOf(groups)[i] == Trim(groups[i][0]))
    {
      assert groups[i] in p.sealed + [p.open];
      GroupLengthBound(groups[i], maxLength);
    }
  }

  /** The chunk of one group is within `maxLength`, or the group is one over-long sentence. */
  lemma GroupLengthBound(g: seq<string>, maxLength: nat)
    requires FitsOrSingle(g, maxLength)
    ensures || |Trim(Spaced(g))| <= maxLength
            || (|g| == 1 && |g[0]| > maxLength && Trim(Spaced(g)) == Trim(g[0]))
  {
    if |g| == 1 {
      assert g == [g[0]];
      SingleSentenceChunk(g[0]);
    } else if g != [] {
      SpacedTrimmedLength(g);
    }
  }

  /** The chunk of a single sentence is that sentence trimmed. */
  lemma SingleSentenceChunk(sentence: string)
    ensures Trim(Spaced([sentence])) == Trim(sentence)
  {
    SpacedSingle(sentence);
    TrimDropsTrailingSpace(sentence);
  }

  lemma SpacedSingle(piece: string)
    ensures Spaced([piece]) == piece + " "
  {
    assert [piece][..0] == [];
  }

  /** The text of a non-empty group of sentences has a visible character: its last terminator. */
  lemma GroupTextVisible(g: seq<string>)
    requires g != [] && IsSentence(g[|g| - 1])
    ensures Trim(Spaced(g)) != ""
  {
    var n := |g|;
    var last := g[n - 1];
    var pre := Spaced(g[..n - 1]);
    var text := Spaced(g);
    assert text == (pre + last) + " ";
    LastOfMiddle(pre, last, " ");
    var k := |pre| + |last| - 1;
    assert !IsWhitespace(text[k]);
  }

  /** The groups are empty exactly at the start, and only when the first sentence alone is longer than `maxLength`. */
  lemma EmptyGroupOnlyFirst(sentences: seq<string>, maxLength: nat)
    ensures var groups := Groups(sentences, maxLength);
      forall i :: 0 <= i < |groups| ==> (groups[i] == [] <==> i == 0 && |sentences[0]| > maxLength)
  {
    PackIsWellPacked(sentences, maxLength);
  }

  /** A chunk is empty exactly when it is the first one and the first sentence alone is longer than `maxLength`. */
  lemma EmptyChunkOnlyFirst(text: string, maxLength: nat)
    ensures var sentences := Sentences(text); var chunks := ChunksOf(Groups(sentences, maxLength));
      forall i :: 0 <= i < |chunks| ==> (chunks[i] == "" <==> i == 0 && |sentences[0]| > maxLength)
  {
    var sentences := Sentences(text);
    PackIsWellPacked(sentences, maxLength);
    EmptyGroupOnlyFirst(sentences, maxLength);
    var p := Pack(sentences, maxLength);
    var groups := Groups(sentences, maxLength);
    forall i | 0 <= i < |groups|
      ensures Trim(Spaced(groups[i])) == "" <==> groups[i] == []
    {
      var g := groups[i];
      if g != [] {
        assert g in p.sealed + [p.open];
        assert g[|g| - 1] in g;
        GroupTextVisible(g);
      }
    }
  }

  /*** scoreChunksByQuery (ragModel.js:53-69) ***/

  /** The words of `s` as `s.toLowerCase().split(' ')` gives them. */
  function Words(s: string): seq<string>
  {
    Split(Lower(s), ' ')
  }

  /** How many of `ws` equal `w`: `ws.filter(x => x === w).length`. */
  function CountOf(ws: seq<string>, w: string): nat
  {
    if ws == [] then 0 else CountOf(ws[..|ws| - 1], w) + (if ws[|ws| - 1] == w then 1 else 0)
  }

  /** The chunk words that are also query words, in order, repeats kept. */
  function MatchingWords(chunkWords: seq<string>, queryWords: seq<string>): seq<string>
  {
    if chunkWords == [] then []
    else
      var last := chunkWords[|chunkWords| - 1];
      MatchingWords(chunkWords[..|chunkWords| - 1], queryWords) + (if last in queryWords then [last] else [])
  }

  /** The `reduce` of the score: each matching word adds its number of occurrences in the chunk. */
  function SumCounts(matching: seq<string>, chunkWords: seq<string>): nat
  {
    if matching == [] then 0
    else SumCounts(matching[..|matching| - 1], chunkWords) + CountOf(chunkWords, matching[|matching| - 1])
  }

  /** The score of a chunk's words: the number of matching words plus the sum of their counts. */
  function ScoreWords(chunkWords: seq<string>, queryWords: seq<string>): nat
  {
    var matching := MatchingWords(chunkWords, queryWords);
    |matching| + SumCounts(matching, chunkWords)
  }

  /** The score `scoreChunksByQuery` gives `chunk` for `query`. */
  function Score(chunk: string, query: string): (r: nat)
    ensures r == 0 <==> forall w :: w in Words(chunk) ==> w !in Words(query)
  {
    ScoreZeroIffNoMatch(Words(chunk), Words(query));
    ScoreWords(Words(chunk), Words(query))
  }

  lemma CountOfSnoc(ws: seq<string>, w: string, x: string)
    ensures CountOf(ws + [w], x) == CountOf(ws, x) + (if w == x then 1 else 0)
  {
    assert (ws + [w])[..|ws|] == ws;
  }

  /** Every word counted in `SumCounts` gains one for each new occurrence of `w`. */
  lemma {:induction false} SumCountsSnocWord(matching: seq<string>, chunkWords: seq<string>, w: string)
    ensures SumCounts(matching, chunkWords + [w]) == SumCounts(matching, chunkWords) + CountOf(matching, w)
    decreases |matching|
  {
    if matching != [] {
      SumCountsSnocWord(matching[..|matching| - 1], chunkWords, w);
      CountOfSnoc(chunkWords, w, matching[|matching| - 1]);
    }
  }

  lemma SumCountsSnoc(matching: seq<string>, m: string, chunkWords: seq<string>)
    ensures SumCounts(matching + [m], chunkWords) == SumCounts(matching, chunkWords) + CountOf(chunkWords, m)
  {
    assert (matching + [m])[..|matching|] == matching;
  }

  /** The matching words keep every occurrence of a query word and none of another word. */
  lemma {:induction false} CountOfMatching(chunkWords: seq<string>, queryWords: seq<string>, w: string)
    ensures CountOf(MatchingWords(chunkWords, queryWords), w) == if w in queryWords then CountOf(chunkWords, w) else 0
    decreases |chunkWords|
  {
    if chunkWords != [] {
      var pre := chunkWords[..|chunkWords| - 1];
      var last := chunkWords[|chunkWords| - 1];
      CountOfMatching(pre, queryWords, w);
      if last in queryWords {
        CountOfSnoc(MatchingWords(pre, queryWords), last, w);
      } else {
        assert MatchingWords(chunkWords, queryWords) == MatchingWords(pre, queryWords);
      }
    }
  }

  /**
    The score grows word by word: a word that is not a query word adds
    nothing, and a query word that already occurs `c` times adds `2 + 2c`
    (one for itself as a match, one for its own count, and one to the count
    of each earlier occurrence).
  */
  lemma ScoreWordsSnoc(chunkWords: seq<string>, w: string, queryWords: seq<string>)
    ensures ScoreWords(chunkWords + [w], queryWords)
      == ScoreWords(chunkWords, queryWords) + (if w in queryWords then 2 + 2 * CountOf(chunkWords, w) else 0)
  {
    var ws := chunkWords + [w];
    var m := MatchingWords(chunkWords, queryWords);
    MatchingSnoc(chunkWords, w, queryWords);
    SumCountsSnocWord(m, chunkWords, w);
    CountOfMatching(chunkWords, queryWords, w);
    if w in queryWords {
      SumCountsSnoc(m, w, ws);
      CountOfSnoc(chunkWords, w, w);
      calc {
        ScoreWords(ws, queryWords);
        |m| + 1 + SumCounts(m + [w], ws);
        |m| + 1 + SumCounts(m, ws) + CountOf(ws, w);
        |m| + 1 + SumCounts(m, chunkWords) + CountOf(m, w) + CountOf(chunkWords, w) + 1;
      }
    } else {
      assert m + [] == m;
      assert MatchingWords(ws, queryWords) == m;
    }
  }

  lemma MatchingSnoc(chunkWords: seq<string>, w: string, queryWords: seq<string>)
    ensures MatchingWords(chunkWords + [w], queryWords)
      == MatchingWords(chunkWords, queryWords) + (if w in queryWords then [w] else [])
  {
    assert (chunkWords + [w])[..|chunkWords|] == chunkWords;
  }

  /** A chunk scores zero exactly when none of its words is a query word. */
  lemma {:induction false} ScoreZeroIffNoMatch(chunkWords: seq<string>, queryWords: seq<string>)
    ensures ScoreWords(chunkWords, queryWords) == 0 <==> forall w :: w in chunkWords ==> w !in queryWords
    decreases |chunkWords|
  {
    if chunkWords != [] {
      var pre := chunkWords[..|chunkWords| - 1];
      var last := chunkWords[|chunkWords| - 1];
      ScoreZeroIffNoMatch(pre, queryWords);
      ScoreWordsSnoc(pre, last, queryWords);
      assert chunkWords == pre + [last];
      assert forall w :: w in chunkWords <==> w in pre || w == last;
    }
  }

  /**
    Appending a word to a chunk (after a space) raises its score by
    `2 + 2c` when the lower-cased word is a query word that already occurs
    `c` times, and leaves it unchanged otherwise.
  */
  lemma ScoreAppendWord(chunk: string, word: string, query: string)
    requires ' ' !in word
    ensures var w := Lower(word);
      Score(chunk + " " + word, query)
        == Score(chunk, query) + (if w in Words(query) then 2 + 2 * CountOf(Words(chunk), w) else 0)
  {
    LowerAppend(chunk + " ", word);
    LowerAppend(chunk, " ");
    assert Lower(" ") == " ";
    assert ' ' !in Lower(word);
    SplitAtSeparator(Lower(chunk), ' ', Lower(word));
    SplitWithoutSeparator(Lower(word), ' ');
    ScoreWordsSnoc(Words(chunk), Lower(word), Words(query));
  }

  /** A chunk with its score, the `{ chunk, score }` objects of `scoreChunksByQuery`. */
  datatype ScoredChunk = ScoredChunk(chunk: string, score: nat)

  /** Highest score first. */
  predicate NonIncreasing(xs: seq<ScoredChunk>)
  {
    forall i, j :: 0 <= i < j < |xs| ==> xs[i].score >= xs[j].score
  }

  /** The elements with score `v`, in their order. */
  function WithScore(xs: seq<ScoredChunk>, v: nat): seq<ScoredChunk>
  {
    if xs == [] then []
    else WithScore(xs[..|xs| - 1], v) + (if xs[|xs| - 1].score == v then [xs[|xs| - 1]] else [])
  }

  lemma WithScoreSnoc(xs: seq<ScoredChunk>, x: ScoredChunk, v: nat)
    ensures WithScore(xs + [x], v) == WithScore(xs, v) + (if x.score == v then [x] else [])
  {
    assert (xs + [x])[..|xs|] == xs;
  }

  /** Inserts `x` into a list sorted highest first, after every element whose score is at least `x`'s. */
  function Insert(sorted: seq<ScoredChunk>, x: ScoredChunk): (r: seq<ScoredChunk>)
    ensures |r| == |sorted| + 1
    ensures multiset(r) == multiset(sorted) + multiset{x}
  {
    if sorted == [] || sorted[|sorted| - 1].score >= x.score then sorted + [x]
    else
      var n := |sorted|;
      assert sorted == sorted[..n - 1] + [sorted[n - 1]];
      Insert(sorted[..n - 1], x) + [sorted[n - 1]]
  }

  /** Every element of the inserted list is `x` or an element of `sorted`. */
  lemma InsertMembers(sorted: seq<ScoredChunk>, x: ScoredChunk, y: ScoredChunk)
    requires y in Insert(sorted, x)
    ensures y == x || y in sorted
  {
    assert y in multiset(Insert(sorted, x));
  }

  /** Appending an element scored no higher than any other keeps the list highest score first. */
  lemma SnocKeepsOrder(ys: seq<ScoredChunk>, z: ScoredChunk)
    requires NonIncreasing(ys)
    requires forall i :: 0 <= i < |ys| ==> ys[i].score >= z.score
    ensures NonIncreasing(ys + [z])
  {
    var r := ys + [z];
    forall i, j | 0 <= i < j < |r| ensures r[i].score >= r[j].score {
      assert r[i] == ys[i];
    }
  }

  /** Insertion keeps the list highest score first. */
  lemma {:induction false} InsertKeepsOrder(sorted: seq<ScoredChunk>, x: ScoredChunk)
    requires NonIncreasing(sorted)
    ensures NonIncreasing(Insert(sorted, x))
    decreases |sorted|
  {
    var n := |sorted|;
    if sorted == [] || sorted[n - 1].score >= x.score {
      SnocKeepsOrder(sorted, x);
    } else {
      var pre := sorted[..n - 1];
      var last := sorted[n - 1];
      InsertKeepsOrder(pre, x);
      var ins := Insert(pre, x);
      forall i | 0 <= i < |ins| ensures ins[i].score >= last.score {
        InsertMembers(pre, x, ins[i]);
        if ins[i] != x {
          var k :| 0 <= k < |pre| && pre[k] == ins[i];
          assert sorted[k] == pre[k];
        }
      }
      SnocKeepsOrder(ins, last);
      assert Insert(sorted, x) == ins + [last];
    }
  }

  /** Insertion puts `x` after the other elements of its score and moves none of them. */
  lemma {:induction false} InsertIsStable(sorted: seq<ScoredChunk>, x: ScoredChunk, v: nat)
    ensures WithScore(Insert(sorted, x), v) == WithScore(sorted, v) + (if x.score == v then [x] else [])
    decreases |sorted|
  {
    if sorted == [] || sorted[|sorted| - 1].score >= x.score {
      assert Insert(sorted, x) == sorted + [x];
      WithScoreSnoc(sorted, x, v);
    } else {
      var n := |sorted|;
      var pre := sorted[..n - 1];
      var last := sorted[n - 1];
      InsertIsStable(pre, x, v);
      var ins := Insert(pre, x);
      assert Insert(sorted, x) == ins + [last];
      WithScoreSnoc(ins, last, v);
      var keepX := if x.score == v then [x] else [];
      var keepLast := if last.score == v then [last] else [];
      assert WithScore(sorted, v) == WithScore(pre, v) + keepLast;
      SwapWhenOneEmpty(WithScore(pre, v), keepX, keepLast);
    }
  }

  /** `Array.prototype.sort` with the comparator `(a, b) => b.score - a.score`, a stable sort. */
  function SortByScore(xs: seq<ScoredChunk>): (r: seq<ScoredChunk>)
    ensures |r| == |xs|
    ensures multiset(r) == multiset(xs)
  {
    if xs == [] then []
    else
      var n := |xs|;
      assert xs == xs[..n - 1] + [xs[n - 1]];
      Insert(SortByScore(xs[..n - 1]), xs[n - 1])
  }

  /** The sort orders by score, highest first, and keeps the input order among equal scores. */
  lemma {:induction false} SortByScoreIsStable(xs: seq<ScoredChunk>)
    ensures NonIncreasing(SortByScore(xs))
    ensures forall v :: WithScore(SortByScore(xs), v) == WithScore(xs, v)
    decreases |xs|
  {
    if xs != [] {
      var n := |xs|;
      SortByScoreIsStable(xs[..n - 1]);
      InsertKeepsOrder(SortByScore(xs[..n - 1]), xs[n - 1]);
      assert xs == xs[..n - 1] + [xs[n - 1]];
      forall v ensures WithScore(SortByScore(xs), v) == WithScore(xs, v) {
        InsertIsStable(SortByScore(xs[..n - 1]), xs[n - 1], v);
        WithScoreSnoc(xs[..n - 1], xs[n - 1], v);
      }
    }
  }

  /** `scoreChunksByQuery`: every chunk with its score, sorted highest score first. */
  function ScoreChunksByQuery(chunks: seq<string>, query: string): (r: seq<ScoredChunk>)
    ensures |r| == |chunks|
    ensures NonIncreasing(r)
  {
    var scored := seq(|chunks|, i requires 0 <= i < |chunks| => ScoredChunk(chunks[i], Score(chunks[i], query)));
    SortByScoreIsStable(scored);
    SortByScore(scored)
  }

  /**
    The scored chunks are the chunks, each once with its own score, highest
    score first, and chunks of equal score stay in their original order.
  */
  lemma ScoredChunksSorted(chunks: seq<string>, query: string)
    ensures var scored := seq(|chunks|, i requires 0 <= i < |chunks| => ScoredChunk(chunks[i], Score(chunks[i], query)));
      var r := ScoreChunksByQuery(chunks, query);
      && multiset(r) == multiset(scored)
      && NonIncreasing(r)
      && (forall v :: WithScore(r, v) == WithScore(scored, v))
      && (forall x :: x in r ==> x.chunk in chunks && x.score == Score(x.chunk, query))
  {
    var scored := seq(|chunks|, i requires 0 <= i < |chunks| => ScoredChunk(chunks[i], Score(chunks[i], query)));
    SortByScoreIsStable(scored);
    var r := ScoreChunksByQuery(chunks, query);
    forall x | x in r ensures x.chunk in chunks && x.score == Score(x.chunk, query) {
      assert x in multiset(r);
      assert x in multiset(scored);
    }
  }

  /*** summarizeTopChunks and generateSummary (ragModel.js:71-104) ***/

  /** What one request to the generative model produced: its text, or the error it raised. */
  datatype Reply = Generated(text: string) | Failed(error: string)

  /**
    The generative model as seen by one run of the pipeline: the reply to
    the `n`-th request of the run (counting from 0) when it carries `prompt`.
  */
  type Generator = (nat, string) -> Reply

  function SummaryPrompt(chunk: string): string
  {
    "Summarize the following text concisely:\n\n" + chunk + "\n\nSummary:"
  }

  /** `generateSummary`: the model's summary of `chunk`, or `chunk` itself when the request fails. */
  function GenerateSummary(gen: Generator, call: nat, chunk: string): (summary: string)
    ensures gen(call, SummaryPrompt(chunk)).Generated? ==> summary == gen(call, SummaryPrompt(chunk)).text
    ensures gen(call, SummaryPrompt(chunk)).Failed? ==> summary == chunk
  {
    match gen(call, SummaryPrompt(chunk))
    case Generated(summary) => summary
    case Failed(_) => chunk
  }

  /** The summaries of the first `topN` scored chunks, request `i` summarising chunk `i`. */
  function Summaries(gen: Generator, scored: seq<ScoredChunk>, topN: nat): seq<string>
  {
    var n := Min(topN, |scored|);
    seq(n, i requires 0 <= i < n => GenerateSummary(gen, i, scored[i].chunk))
  }

  /**
    `summarizeTopChunks`: one summary request per chunk among the first
    `topN`, in order; a failed request yields the chunk unchanged.
  */
  method SummarizeTopChunks(gen: Generator, scored: seq<ScoredChunk>, topN: nat) returns (summaries: seq<string>)
    ensures |summaries| == Min(topN, |scored|)
    ensures forall i :: 0 <= i < |summaries| ==>
      summaries[i] == (if gen(i, SummaryPrompt(scored[i].chunk)).Failed? then scored[i].chunk
                       else gen(i, SummaryPrompt(scored[i].chunk)).text)
    ensures summaries == Summaries(gen, scored, topN)
  {
    var topChunks := scored[..Min(topN, |scored|)];
    summaries := [];
    for i := 0 to |topChunks|
      invariant summaries == Summaries(gen, scored, topN)[..i]
    {
      var summary;
      match gen(i, SummaryPrompt(topChunks[i].chunk)) {
        case Generated(text) => summary := text;
        case Failed(_) => summary := topChunks[i].chunk;
      }
      summaries := summaries + [summary];
    }
  }

  /** When every request fails, the summaries are the top chunks themselves. */
  lemma SummariesOfFailingModel(gen: Generator, scored: seq<ScoredChunk>, topN: nat)
    requires forall n: nat, prompt :: gen(n, prompt).Failed?
    ensures var n := Min(topN, |scored|);
      Summaries(gen, scored, topN) == seq(n, i requires 0 <= i < n => scored[i].chunk)
  {
  }

  /*** createMegaChunk (ragModel.js:106-120) ***/

  /** Summary `j` still fits after the summaries before it, each followed by a space. */
  predicate Fits(summaries: seq<string>, j: nat, maxLength: nat)
    requires j < |summaries|
  {
    |Spaced(summaries[..j])| + |summaries[j]| <= maxLength
  }

  /** The first summary from `j` on that does not fit, or the end. */
  function FitCountFrom(summaries: seq<string>, j: nat, maxLength: nat): (k: nat)
    requires j <= |summaries|
    ensures j <= k <= |summaries|
    ensures forall i :: j <= i < k ==> Fits(summaries, i, maxLength)
    ensures k < |summaries| ==> !Fits(summaries, k, maxLength)
    decreases |summaries| - j
  {
    if j == |summaries| || !Fits(summaries, j, maxLength) then j else FitCountFrom(summaries, j + 1, maxLength)
  }

  /** How many summaries the mega chunk takes: those before the first one that does not fit. */
  function FitCount(summaries: seq<string>, maxLength: nat): (k: nat)
    ensures k <= |summaries|
    ensures forall i :: 0 <= i < k ==> Fits(summaries, i, maxLength)
    ensures k < |summaries| ==> !Fits(summaries, k, maxLength)
  {
    FitCountFrom(summaries, 0, maxLength)
  }

  /** The mega chunk: the fitting summaries, each followed by a space, trimmed. */
  function MegaChunk(summaries: seq<string>, maxLength: nat): string
  {
    Trim(Spaced(summaries[..FitCount(summaries, maxLength)]))
  }

  /**
    `createMegaChunk`: appends summaries while they fit and stops at the
    first one that does not, even when a later one would.
  */
  method CreateMegaChunk(summaries: seq<string>, maxLength: nat) returns (megaChunk: string)
    ensures megaChunk == MegaChunk(summaries, maxLength)
    ensures |megaChunk| <= maxLength
  {
    megaChunk := "";
    var i := 0;
    while i < |summaries|
      invariant i <= |summaries|
      invariant megaChunk == Spaced(summaries[..i])
      invariant FitCountFrom(summaries, i, maxLength) == FitCount(summaries, maxLength)
    {
      var summary := summaries[i];
      if |megaChunk| + |summary| <= maxLength {
        assert summaries[..i + 1] == summaries[..i] + [summary];
        megaChunk := megaChunk + summary + " ";
        i := i + 1;
      } else {
        break;
      }
    }
    assert i == FitCount(summaries, maxLength);
    megaChunk := Trim(megaChunk);
    MegaChunkBound(summaries, maxLength);
  }

  /** The mega chunk is never longer than `maxLength`. */
  lemma MegaChunkBound(summaries: seq<string>, maxLength: nat)
    ensures |MegaChunk(summaries, maxLength)| <= maxLength
  {
    var k := FitCount(summaries, maxLength);
    if k > 0 {
      var taken := summaries[..k];
      assert taken[..k - 1] == summaries[..k - 1];
      assert Fits(summaries, k - 1, maxLength);
      SpacedTrimmedLength(taken);
    }
  }

  /*** fallbackMechanism (ragModel.js:122-131) ***/

  /**
    `fallbackMechanism`: the mega chunk when it contains the query (both
    lower-cased), otherwise the full context.
  */
  function Fallback(megaChunk: string, fullContext: string, query: string): (r: string)
    ensures Occurs(Lower(megaChunk), Lower(query)) ==> r == megaChunk
    ensures !Occurs(Lower(megaChunk), Lower(query)) ==> r == fullContext
  {
    ContainsIffOccurs(Lower(megaChunk), Lower(query));
    if !Contains(Lower(megaChunk), Lower(query)) then fullContext else megaChunk
  }

  /*** getModelResponse and generateAnswer (ragModel.js:133-184) ***/

  const ChunkMaxLength: nat := 1000
  const SummaryCount: nat := 10
  const MegaChunkMaxLength: nat := 3000
  const ModelConfidence: real := 0.8

  /** The object `getModelResponse` resolves to. */
  datatype ModelResponse = ModelResponse(question: string, answer: string, confidence: real)

  /** The instructions that open the answer request. */
  const AnswerInstructions: string :=
    "Based on the following context, provide a comprehensive answer to the query. "
    + "If the exact answer is not found, synthesize the most relevant information to address the query.\n\n"

  /** The prompt of the answer request: the instructions, the context, then the query. */
  function AnswerPrompt(query: string, context: string): string
  {
    AnswerInstructions + "Context: " + context + "\n\nQuery: " + query + "\n\nAnswer:"
  }

  /** The chunks of the cleaned context, in text order. */
  function ContextChunks(boilerplate: string -> string, fullContext: string): seq<string>
  {
    ChunksOf(Groups(Sentences(PreprocessText(boilerplate, fullContext)), ChunkMaxLength))
  }

  /** The context the answer request carries: the mega chunk of the summaries, or the full context. */
  function AnswerContext(boilerplate: string -> string, gen: Generator, question: string, fullContext: string): string
  {
    var scored := ScoreChunksByQuery(ContextChunks(boilerplate, fullContext), question);
    Fallback(MegaChunk(Summaries(gen, scored, SummaryCount), MegaChunkMaxLength), fullContext, question)
  }

  /** The number of the answer request: it follows the summary requests. */
  function AnswerCall(boilerplate: string -> string, fullContext: string): nat
  {
    Min(SummaryCount, |ContextChunks(boilerplate, fullContext)|)
  }

  /** The outcome of the answer request: the answer with the fixed confidence, or the request's error. */
  function AnswerOf(question: string, reply: Reply): (r: Result<ModelResponse>)
    ensures r.Ok? <==> reply.Generated?
    ensures r.Ok? ==> r.value == ModelResponse(question, reply.text, ModelConfidence)
    ensures r.Err? ==> r.error == reply.error
  {
    match reply
    case Generated(answer) => Ok(ModelResponse(question, answer, ModelConfidence))
    case Failed(error) => Err(error)
  }

  /**
    `getModelResponse`: clean, chunk, score and summarise the context, build
    the mega chunk, fall back to the full context when the mega chunk lacks
    the question, and ask for the answer. A failed answer request fails the
    whole call with its error; a failed summary does not.
  */
  method GetModelResponse(boilerplate: string -> string, gen: Generator, question: string, fullContext: string)
    returns (r: Result<ModelResponse>)
    ensures r == AnswerOf(question, gen(AnswerCall(boilerplate, fullContext),
                                        AnswerPrompt(question, AnswerContext(boilerplate, gen, question, fullContext))))
  {
    var cleanedContext := PreprocessText(boilerplate, fullContext);
    var chunks := ChunkText(cleanedContext, ChunkMaxLength);
    var scoredChunks := ScoreChunksByQuery(chunks, question);
    var summaries := SummarizeTopChunks(gen, scoredChunks, SummaryCount);
    var megaChunk := CreateMegaChunk(summaries, MegaChunkMaxLength);
    var finalContext := Fallback(megaChunk, fullContext, question);
    assert chunks == ContextChunks(boilerplate, fullContext);
    assert |summaries| == AnswerCall(boilerplate, fullContext);
    assert finalContext == AnswerContext(boilerplate, gen, question, fullContext);
    match gen(|summaries|, AnswerPrompt(question, finalContext)) {
      case Generated(answer) => r := Ok(ModelResponse(question, answer, ModelConfidence));
      case Failed(error) => r := Err(error);
    }
  }

  /**
    The answer request carries either the full context or a text of at most
    3000 characters that contains the question, ignoring ASCII case.
  */
  lemma AnswerContextIsMegaChunkOrFull(boilerplate: string -> string, gen: Generator, question: string, fullContext: string)
    ensures var context := AnswerContext(boilerplate, gen, question, fullContext);
      || context == fullContext
      || (|context| <= MegaChunkMaxLength && Occurs(Lower(context), Lower(question)))
  {
    var scored := ScoreChunksByQuery(ContextChunks(boilerplate, fullContext), question);
    MegaChunkBound(Summaries(gen, scored, SummaryCount), MegaChunkMaxLength);
  }
}
