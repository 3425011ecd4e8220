/**
  The answer post-processing of the service (backend/nlp.js): the model's
  answer is trimmed, replaced by sentences pulled from the articles when it
  is empty or says "no answer", replaced by a default message when it is
  still shorter than five characters, and returned with the question, a
  confidence and the first three sources.
*/
module Nlp {
  import opened Wrappers
  import opened JsString
  import opened Sequences
  import RagModel

  /** A word tokenizer (`natural.WordTokenizer().tokenize`): the tokens of a text. */
  type Tokenizer = string -> seq<string>

  /** A fetched article; `content` is absent when the scraper produced none. */
  datatype Article = Article(title: string, link: string, content: Option<string>)

  /** A cited source: an article's title and link. */
  datatype Source = Source(title: string, link: string)

  /** The object `formatResponse` builds. */
  datatype FinalResponse = FinalResponse(question: string, answer: string, confidence: real, sources: seq<Source>)

  /** What `processResponse` returns: the formatted answer, or the `{ error }` object of its catch block. */
  datatype Response = Answered(response: FinalResponse) | ErrorReply(error: string)

  /** The fields of the model response that `processResponse` reads: `answer` and `score`, each possibly absent. */
  datatype AnswerRecord = AnswerRecord(answer: Option<string>, score: Option<real>)

  /** The message that replaces an answer shorter than five characters. */
  const DefaultAnswer: string := "No specific answer found in the articles." + " Please try rephrasing your question."
  const ProcessingError: string := "Error processing the response. Please try again later."
  /**
    The error raised by `article.content.split` when the content is absent.
    The server's scraper drops every article whose content is missing or
    blank (backend/scraping.js:66), so on the server's path it does not arise.
  */
  const MissingContentError: string := "Cannot read properties of undefined (reading 'split')"
  const MaxMatches: nat := 5
  const MaxSources: nat := 3
  const MinAnswerLength: nat := 5

  /*** extractRelevantInfo (nlp.js:48-70) ***/

  /** `s.split(/[.!?]+/)`: the pieces between maximal runs of terminators, at least one, possibly empty. */
  function Fragments(s: string): (r: seq<string>)
    ensures |r| >= 1
    decreases |s|
  {
    if s == [] then [""]
    else if IsTerminator(s[0]) then [""] + Fragments(s[TerminatorRun(s)..])
    else
      var rest := Fragments(s[1..]);
      [[s[0]] + rest[0]] + rest[1..]
  }

  /** The characters of `s` that are not terminators, in order. */
  function WithoutTerminators(s: string): (r: string)
    ensures TerminatorFree(r)
  {
    if s == [] then []
    else (if IsTerminator(s[0]) then [] else [s[0]]) + WithoutTerminators(s[1..])
  }

  lemma {:induction false} WithoutTerminatorsSkipsRun(s: string, k: nat)
    requires k <= |s| && forall i :: 0 <= i < k ==> IsTerminator(s[i])
    ensures WithoutTerminators(s) == WithoutTerminators(s[k..])
    decreases k
  {
    if k > 0 {
      WithoutTerminatorsSkipsRun(s[1..], k - 1);
      assert s[1..][k - 1..] == s[k..];
    }
  }

  /** The fragments hold exactly the text's characters that are not terminators, in order. */
  lemma {:induction false} FragmentsKeepText(s: string)
    ensures Flatten(Fragments(s)) == WithoutTerminators(s)
    decreases |s|
  {
    if s == [] {
      assert Flatten([""]) == Flatten([] + [""]);
    } else if IsTerminator(s[0]) {
      var k := TerminatorRun(s);
      FragmentsKeepText(s[k..]);
      FlattenCons("", Fragments(s[k..]));
      WithoutTerminatorsSkipsRun(s, k);
    } else {
      var rest := Fragments(s[1..]);
      FragmentsKeepText(s[1..]);
      assert rest == [rest[0]] + rest[1..];
      FlattenCons(rest[0], rest[1..]);
      FlattenCons([s[0]] + rest[0], rest[1..]);
    }
  }

  /** A text without terminators is a single fragment. */
  lemma {:induction false} FragmentsOfTerminatorFree(s: string)
    requires TerminatorFree(s)
    ensures Fragments(s) == [s]
    decreases |s|
  {
    if s != [] {
      FragmentsOfTerminatorFree(s[1..]);
      assert [s[0]] + s[1..] == s;
    }
  }

  /** A non-empty run of terminators followed by a non-terminator (or nothing) is measured exactly. */
  lemma TerminatorRunOf(t: string, b: string)
    requires t != [] && forall i :: 0 <= i < |t| ==> IsTerminator(t[i])
    requires b == [] || !IsTerminator(b[0])
    ensures TerminatorRun(t + b) == |t| && (t + b)[|t|..] == b
  {
    var s := t + b;
    assert forall i :: 0 <= i < |t| ==> s[i] == t[i];
    assert |t| < |s| ==> s[|t|] == b[0];
  }

  /**
    `split(/[.!?]+/)` cuts at every maximal run of terminators: a
    terminator-free piece followed by such a run is the first fragment, and
    the fragments of what follows the run come after it.
  */
  lemma {:induction false} FragmentsAtRun(a: string, t: string, b: string)
    requires TerminatorFree(a)
    requires t != [] && forall i :: 0 <= i < |t| ==> IsTerminator(t[i])
    requires b == [] || !IsTerminator(b[0])
    ensures Fragments(a + t + b) == [a] + Fragments(b)
    decreases |a|
  {
    if a == [] {
      assert a + t + b == t + b;
      TerminatorRunOf(t, b);
    } else {
      var s := a + t + b;
      assert s[0] == a[0];
      assert s[1..] == a[1..] + t + b;
      FragmentsAtRun(a[1..], t, b);
      assert [a[0]] + a[1..] == a;
    }
  }

  /** `queryTokens.some(token => sentenceTokens.includes(token))`. */
  predicate SharesToken(queryTokens: seq<string>, sentenceTokens: seq<string>)
  {
    exists t :: t in queryTokens && t in sentenceTokens
  }

  /** A fragment is relevant when its lower-cased tokens include one of the query tokens. */
  predicate Relevant(tokenize: Tokenizer, queryTokens: seq<string>, fragment: string)
  {
    SharesToken(queryTokens, tokenize(Lower(fragment)))
  }

  /** The relevant fragments, trimmed, in order. */
  function MatchesIn(tokenize: Tokenizer, queryTokens: seq<string>, fragments: seq<string>): seq<string>
  {
    if fragments == [] then []
    else
      var last := fragments[|fragments| - 1];
      MatchesIn(tokenize, queryTokens, fragments[..|fragments| - 1])
        + (if Relevant(tokenize, queryTokens, last) then [Trim(last)] else [])
  }

  /** The relevant fragments of each article, absent for an article without content. */
  function ArticleMatches(tokenize: Tokenizer, queryTokens: seq<string>, articles: seq<Article>): seq<Option<seq<string>>>
  {
    seq(|articles|, k requires 0 <= k < |articles| =>
      match articles[k].content
      case None => None
      case Some(content) => Some(MatchesIn(tokenize, queryTokens, Fragments(content))))
  }

  /** The entry for article `k`. */
  lemma ArticleMatchesAt(tokenize: Tokenizer, queryTokens: seq<string>, articles: seq<Article>, k: nat)
    requires k < |articles|
    ensures var parts := ArticleMatches(tokenize, queryTokens, articles);
      && |parts| == |articles|
      && (articles[k].content.None? ==> parts[k].None?)
      && (articles[k].content.Some? ==>
            parts[k] == Some(MatchesIn(tokenize, queryTokens, Fragments(articles[k].content.value))))
  {
  }

  /** The first `n` parts are all present. */
  predicate PresentUpTo<T>(parts: seq<Option<seq<T>>>, n: nat)
  {
    n <= |parts| && forall k :: 0 <= k < n ==> parts[k].Some?
  }

  /** The present parts, joined, up to the first absent one. */
  function UpToMissing<T>(parts: seq<Option<seq<T>>>): seq<T>
  {
    if parts == [] then []
    else
      match parts[0]
      case None => []
      case Some(part) => part + UpToMissing(parts[1..])
  }

  /** Over a prefix of present parts, the joined parts split at the end of the prefix. */
  lemma {:induction false} UpToMissingSplit<T>(parts: seq<Option<seq<T>>>, a: nat)
    requires a <= |parts|
    requires PresentUpTo(parts, a)
    ensures UpToMissing(parts) == UpToMissing(parts[..a]) + UpToMissing(parts[a..])
    decreases a
  {
    if a == 0 {
      assert parts[0..] == parts;
    } else {
      var rest := parts[1..];
      UpToMissingSplit(rest, a - 1);
      assert parts[..a][1..] == rest[..a - 1];
      assert rest[a - 1..] == parts[a..];
    }
  }

  /** One more present part is appended. */
  lemma UpToMissingSnoc<T>(parts: seq<Option<seq<T>>>, a: nat)
    requires a < |parts| && PresentUpTo(parts, a + 1)
    ensures UpToMissing(parts[..a + 1]) == UpToMissing(parts[..a]) + parts[a].value
  {
    var pre := parts[..a + 1];
    UpToMissingSplit(pre, a);
    assert pre[..a] == parts[..a];
    assert pre[a..] == [parts[a]];
  }

  /** The joined parts are those of the present prefix, then the present part at `a` and what follows it. */
  lemma UpToMissingAt<T>(parts: seq<Option<seq<T>>>, a: nat)
    requires a < |parts| && PresentUpTo(parts, a)
    ensures parts[a].None? ==> UpToMissing(parts) == UpToMissing(parts[..a])
    ensures parts[a].Some? ==> UpToMissing(parts) == UpToMissing(parts[..a]) + (parts[a].value + UpToMissing(parts[a + 1..]))
  {
    UpToMissingSplit(parts, a);
    assert parts[a..][1..] == parts[a + 1..];
  }

  /** Every joined element comes from a present part. */
  lemma {:induction false} UpToMissingMembers<T>(parts: seq<Option<seq<T>>>)
    ensures forall x :: x in UpToMissing(parts) ==> exists k :: 0 <= k < |parts| && parts[k].Some? && x in parts[k].value
    decreases |parts|
  {
    if parts != [] && parts[0].Some? {
      UpToMissingMembers(parts[1..]);
      forall x | x in UpToMissing(parts)
        ensures exists k :: 0 <= k < |parts| && parts[k].Some? && x in parts[k].value
      {
        if x !in parts[0].value {
          var k :| 0 <= k < |parts[1..]| && parts[1..][k].Some? && x in parts[1..][k].value;
          assert parts[k + 1] == parts[1..][k];
        }
      }
    }
  }

  /** The relevant fragments of the articles, article by article, up to the first article without content. */
  function MatchesBefore(tokenize: Tokenizer, queryTokens: seq<string>, articles: seq<Article>): seq<string>
  {
    UpToMissing(ArticleMatches(tokenize, queryTokens, articles))
  }

  /** Some article has no content. */
  predicate MissingContent(articles: seq<Article>)
  {
    exists k :: 0 <= k < |articles| && articles[k].content.None?
  }

  /**
    What `extractRelevantInfo` produces: the first five relevant fragments
    when there are five before any article without content; otherwise the
    error of splitting absent content when such an article exists, and all
    relevant fragments when none does.
  */
  function RelevantInfo(tokenize: Tokenizer, articles: seq<Article>, query: string): Result<seq<string>>
  {
    var matches := MatchesBefore(tokenize, tokenize(Lower(query)), articles);
    if |matches| >= MaxMatches then Ok(matches[..MaxMatches])
    else if MissingContent(articles) then Err(MissingContentError)
    else Ok(matches)
  }

  lemma MatchesInSnoc(tokenize: Tokenizer, queryTokens: seq<string>, fragments: seq<string>, f: string)
    ensures MatchesIn(tokenize, queryTokens, fragments + [f])
      == MatchesIn(tokenize, queryTokens, fragments) + (if Relevant(tokenize, queryTokens, f) then [Trim(f)] else [])
  {
    assert (fragments + [f])[..|fragments|] == fragments;
  }

  lemma {:induction false} MatchesInAppend(tokenize: Tokenizer, queryTokens: seq<string>, xs: seq<string>, ys: seq<string>)
    ensures MatchesIn(tokenize, queryTokens, xs + ys)
      == MatchesIn(tokenize, queryTokens, xs) + MatchesIn(tokenize, queryTokens, ys)
    decreases |ys|
  {
    if ys == [] {
      assert xs + ys == xs;
    } else {
      var n := |ys|;
      var last := if Relevant(tokenize, queryTokens, ys[n - 1]) then [Trim(ys[n - 1])] else [];
      AppendButLast(xs, ys);
      assert MatchesIn(tokenize, queryTokens, xs + ys) == MatchesIn(tokenize, queryTokens, xs + ys[..n - 1]) + last;
      MatchesInAppend(tokenize, queryTokens, xs, ys[..n - 1]);
      assert MatchesIn(tokenize, queryTokens, ys) == MatchesIn(tokenize, queryTokens, ys[..n - 1]) + last;
      AppendAssoc(MatchesIn(tokenize, queryTokens, xs), MatchesIn(tokenize, queryTokens, ys[..n - 1]), last);
    }
  }

  /**
    The inner loop of `extractRelevantInfo` over one article's fragments:
    the relevant fragments, trimmed, are pushed after `matched` until five
    are held. `full` is the test that ends the outer loop.
  */
  method MatchFragments(tokenize: Tokenizer, queryTokens: seq<string>, fragments: seq<string>, matched: seq<string>)
    returns (found: seq<string>, full: bool)
    requires |matched| < MaxMatches
    ensures var all := matched + MatchesIn(tokenize, queryTokens, fragments);
      && (full <==> |all| >= MaxMatches)
      && (full ==> found == all[..MaxMatches])
      && (!full ==> found == all)
  {
    found, full := matched, false;
    var j := 0;
    while j < |fragments| && !full
      invariant j <= |fragments|
      invariant found == matched + MatchesIn(tokenize, queryTokens, fragments[..j])
      invariant |found| <= MaxMatches && (full <==> |found| == MaxMatches)
    {
      var sentence := fragments[j];
      var sentenceTokens := tokenize(Lower(sentence));
      ExtractionStep(tokenize, queryTokens, matched, fragments, j);
      if SharesToken(queryTokens, sentenceTokens) {
        found := found + [Trim(sentence)];
        full := |found| >= MaxMatches;
      }
      j := j + 1;
    }
    FragmentsScanned(tokenize, queryTokens, matched, fragments, j, found, full);
  }

  /** Where the scan of the fragments stops: at the fifth match, or after the last fragment. */
  lemma FragmentsScanned(tokenize: Tokenizer, queryTokens: seq<string>, matched: seq<string>, fragments: seq<string>,
                         j: nat, found: seq<string>, full: bool)
    requires j <= |fragments| && found == matched + MatchesIn(tokenize, queryTokens, fragments[..j])
    requires |found| <= MaxMatches && (full <==> |found| == MaxMatches)
    requires !full ==> j == |fragments|
    ensures var all := matched + MatchesIn(tokenize, queryTokens, fragments);
      && (full <==> |all| >= MaxMatches)
      && (full ==> found == all[..MaxMatches])
      && (!full ==> found == all)
  {
    if full {
      FragmentsBeyond(tokenize, queryTokens, matched, fragments, j, found);
    } else {
      assert fragments[..j] == fragments;
    }
  }

  /** The matches held after fragment `j` start the matches of all fragments. */
  lemma FragmentsBeyond(tokenize: Tokenizer, queryTokens: seq<string>, matched: seq<string>, fragments: seq<string>,
                        j: nat, found: seq<string>)
    requires j <= |fragments| && found == matched + MatchesIn(tokenize, queryTokens, fragments[..j])
    ensures var all := matched + MatchesIn(tokenize, queryTokens, fragments);
      |found| <= |all| && all[..|found|] == found
  {
    assert fragments == fragments[..j] + fragments[j..];
    MatchesInAppend(tokenize, queryTokens, fragments[..j], fragments[j..]);
    PrefixOfJoined(matched + MatchesIn(tokenize, queryTokens, fragments), matched,
      MatchesIn(tokenize, queryTokens, fragments[..j]), MatchesIn(tokenize, queryTokens, fragments[j..]), []);
  }

  /**
    `extractRelevantInfo`: for each article in turn, split its content into
    fragments and keep the trimmed fragments whose tokens include a query
    token, stopping as soon as five are kept. An article without content
    makes the split throw.
  */
  method ExtractRelevantInfo(tokenize: Tokenizer, articles: seq<Article>, query: string) returns (r: Result<seq<string>>)
    ensures r == RelevantInfo(tokenize, articles, query)
  {
    var queryTokens := tokenize(Lower(query));
    var matchedSentences: seq<string> := [];
    var a := 0;
    while a < |articles|
      invariant a <= |articles|
      invariant PresentUpTo(ArticleMatches(tokenize, queryTokens, articles), a)
      invariant matchedSentences == UpToMissing(ArticleMatches(tokenize, queryTokens, articles)[..a])
      invariant |matchedSentences| < MaxMatches
    {
      if articles[a].content.None? {
        ExtractionHitsMissing(tokenize, articles, query, a);
        return Err(MissingContentError);
      }
      var sentences := Fragments(articles[a].content.value);
      var found, full := MatchFragments(tokenize, queryTokens, sentences, matchedSentences);
      ExtractionPassesArticle(tokenize, articles, query, a);
      if full {
        ExtractionFindsFive(tokenize, articles, query, a);
        return Ok(found);
      }
      matchedSentences := found;
      a := a + 1;
    }
    ExtractionCompletes(tokenize, articles, query);
    return Ok(matchedSentences);
  }

  /** One more fragment looked at: its trim is appended exactly when it is relevant. */
  lemma ExtractionStep(tokenize: Tokenizer, queryTokens: seq<string>, done: seq<string>, fragments: seq<string>, j: nat)
    requires j < |fragments|
    ensures Relevant(tokenize, queryTokens, fragments[j]) ==>
      done + MatchesIn(tokenize, queryTokens, fragments[..j + 1])
        == (done + MatchesIn(tokenize, queryTokens, fragments[..j])) + [Trim(fragments[j])]
    ensures !Relevant(tokenize, queryTokens, fragments[j]) ==>
      done + MatchesIn(tokenize, queryTokens, fragments[..j + 1])
        == done + MatchesIn(tokenize, queryTokens, fragments[..j])
  {
    assert fragments[..j + 1] == fragments[..j] + [fragments[j]];
    MatchesInSnoc(tokenize, queryTokens, fragments[..j], fragments[j]);
    AppendAssoc(done, MatchesIn(tokenize, queryTokens, fragments[..j]), [Trim(fragments[j])]);
  }

  /** Reaching an article without content before five matches is the extraction's failure. */
  lemma ExtractionHitsMissing(tokenize: Tokenizer, articles: seq<Article>, query: string, a: nat)
    requires a < |articles| && articles[a].content.None?
    requires var parts := ArticleMatches(tokenize, tokenize(Lower(query)), articles);
      && PresentUpTo(parts, a)
      && |UpToMissing(parts[..a])| < MaxMatches
    ensures RelevantInfo(tokenize, articles, query) == Err(MissingContentError)
  {
    var parts := ArticleMatches(tokenize, tokenize(Lower(query)), articles);
    ArticleMatchesAt(tokenize, tokenize(Lower(query)), articles, a);
    UpToMissingAt(parts, a);
    assert MissingContent(articles);
  }

  /** An article read to its end adds all its matches. */
  lemma ExtractionPassesArticle(tokenize: Tokenizer, articles: seq<Article>, query: string, a: nat)
    requires a < |articles| && articles[a].content.Some?
    requires PresentUpTo(ArticleMatches(tokenize, tokenize(Lower(query)), articles), a)
    ensures var parts := ArticleMatches(tokenize, tokenize(Lower(query)), articles);
      && PresentUpTo(parts, a + 1)
      && UpToMissing(parts[..a + 1])
         == UpToMissing(parts[..a]) + MatchesIn(tokenize, tokenize(Lower(query)), Fragments(articles[a].content.value))
  {
    var parts := ArticleMatches(tokenize, tokenize(Lower(query)), articles);
    ArticleMatchesAt(tokenize, tokenize(Lower(query)), articles, a);
    assert parts[a].Some?;
    UpToMissingSnoc(parts, a);
  }

  /** Once five matches are held after article `a`, the result is the first five of all matches. */
  lemma ExtractionFindsFive(tokenize: Tokenizer, articles: seq<Article>, query: string, a: nat)
    requires var parts := ArticleMatches(tokenize, tokenize(Lower(query)), articles);
      && a < |articles| && PresentUpTo(parts, a + 1)
      && |UpToMissing(parts[..a + 1])| >= MaxMatches
    ensures var parts := ArticleMatches(tokenize, tokenize(Lower(query)), articles);
      RelevantInfo(tokenize, articles, query) == Ok(UpToMissing(parts[..a + 1])[..MaxMatches])
  {
    var parts := ArticleMatches(tokenize, tokenize(Lower(query)), articles);
    UpToMissingSplit(parts, a + 1);
    PrefixOfPrefix(UpToMissing(parts[..a + 1]), UpToMissing(parts[a + 1..]), MaxMatches);
  }

  /** Every article read with fewer than five matches: the result is all of them. */
  lemma ExtractionCompletes(tokenize: Tokenizer, articles: seq<Article>, query: string)
    requires var parts := ArticleMatches(tokenize, tokenize(Lower(query)), articles);
      && PresentUpTo(parts, |articles|)
      && |UpToMissing(parts[..|articles|])| < MaxMatches
    ensures var parts := ArticleMatches(tokenize, tokenize(Lower(query)), articles);
      RelevantInfo(tokenize, articles, query) == Ok(UpToMissing(parts[..|articles|]))
  {
    var parts := ArticleMatches(tokenize, tokenize(Lower(query)), articles);
    assert parts[..|articles|] == parts;
    AllPresent(tokenize, tokenize(Lower(query)), articles);
  }

  /** A prefix no longer than `xs` is a prefix of `xs`. */
  lemma PrefixOfPrefix<T>(xs: seq<T>, ys: seq<T>, n: nat)
    requires n <= |xs|
    ensures (xs + ys)[..n] == xs[..n]
  {
  }

  /** When every article has matches, none lacks content. */
  lemma AllPresent(tokenize: Tokenizer, queryTokens: seq<string>, articles: seq<Article>)
    requires PresentUpTo(ArticleMatches(tokenize, queryTokens, articles), |articles|)
    ensures !MissingContent(articles)
  {
    forall k | 0 <= k < |articles| ensures articles[k].content.Some? {
      assert ArticleMatches(tokenize, queryTokens, articles)[k].Some?;
    }
  }

  /** What was joined up to some point starts the whole joined sequence. */
  lemma PrefixOfJoined<T>(all: seq<T>, done: seq<T>, found: seq<T>, unseen: seq<T>, after: seq<T>)
    requires all == done + ((found + unseen) + after)
    ensures |done + found| <= |all| && all[..|done + found|] == done + found
  {
    assert all == (done + found) + (unseen + after);
  }

  /** At most five fragments are returned. */
  lemma RelevantInfoBound(tokenize: Tokenizer, articles: seq<Article>, query: string)
    ensures RelevantInfo(tokenize, articles, query).Ok? ==> |RelevantInfo(tokenize, articles, query).value| <= MaxMatches
  {
  }

  /** The extraction fails exactly when an article without content is reached before five matches. */
  lemma RelevantInfoFails(tokenize: Tokenizer, articles: seq<Article>, query: string)
    ensures RelevantInfo(tokenize, articles, query).Err?
      <==> MissingContent(articles) && |MatchesBefore(tokenize, tokenize(Lower(query)), articles)| < MaxMatches
  {
  }

  /** Every match is the trim of a relevant fragment of the given fragments. */
  lemma {:induction false} MatchesInFromFragments(tokenize: Tokenizer, queryTokens: seq<string>, fragments: seq<string>)
    ensures forall m :: m in MatchesIn(tokenize, queryTokens, fragments) ==>
      exists f :: f in fragments && Relevant(tokenize, queryTokens, f) && m == Trim(f)
    decreases |fragments|
  {
    if fragments != [] {
      var pre := fragments[..|fragments| - 1];
      var last := fragments[|fragments| - 1];
      MatchesInFromFragments(tokenize, queryTokens, pre);
      forall m | m in MatchesIn(tokenize, queryTokens, fragments)
        ensures exists f :: f in fragments && Relevant(tokenize, queryTokens, f) && m == Trim(f)
      {
        if m in MatchesIn(tokenize, queryTokens, pre) {
          var f :| f in pre && Relevant(tokenize, queryTokens, f) && m == Trim(f);
          assert f in fragments;
        } else {
          assert last in fragments;
        }
      }
    }
  }

  /** `m` is the trim of a fragment of some article's content that shares a token with the query. */
  ghost predicate FromArticles(tokenize: Tokenizer, queryTokens: seq<string>, articles: seq<Article>, m: string)
  {
    exists k, f :: 0 <= k < |articles| && articles[k].content.Some?
      && f in Fragments(articles[k].content.value) && Relevant(tokenize, queryTokens, f) && m == Trim(f)
  }

  lemma MatchesBeforeFromArticles(tokenize: Tokenizer, queryTokens: seq<string>, articles: seq<Article>)
    ensures forall m :: m in MatchesBefore(tokenize, queryTokens, articles) ==> FromArticles(tokenize, queryTokens, articles, m)
  {
    var parts := ArticleMatches(tokenize, queryTokens, articles);
    UpToMissingMembers(parts);
    forall m | m in MatchesBefore(tokenize, queryTokens, articles)
      ensures FromArticles(tokenize, queryTokens, articles, m)
    {
      var k :| 0 <= k < |parts| && parts[k].Some? && m in parts[k].value;
      var fs := Fragments(articles[k].content.value);
      MatchesInFromFragments(tokenize, queryTokens, fs);
      var f :| f in fs && Relevant(tokenize, queryTokens, f) && m == Trim(f);
    }
  }

  /** Every extracted sentence is the trim of a fragment of some article that shares a token with the query. */
  lemma RelevantInfoFromArticles(tokenize: Tokenizer, articles: seq<Article>, query: string)
    ensures RelevantInfo(tokenize, articles, query).Ok? ==>
      forall m :: m in RelevantInfo(tokenize, articles, query).value ==>
        FromArticles(tokenize, tokenize(Lower(query)), articles, m)
  {
    var matches := MatchesBefore(tokenize, tokenize(Lower(query)), articles);
    MatchesBeforeFromArticles(tokenize, tokenize(Lower(query)), articles);
    if |matches| >= MaxMatches {
      forall m | m in matches[..MaxMatches] ensures m in matches {
        var i :| 0 <= i < MaxMatches && matches[..MaxMatches][i] == m;
        assert matches[i] == m;
      }
    }
  }

  /*** formatResponse (nlp.js:75-87) ***/

  /**
    `formatResponse`: the question, the trimmed answer, the confidence, and
    the title and link of each of the first three articles.
  */
  function FormatResponse(query: string, answer: string, confidence: real, articles: seq<Article>): (r: FinalResponse)
    ensures r.question == query && r.confidence == confidence
    ensures NoEdgeWhitespace(r.answer) && (NoEdgeWhitespace(answer) ==> r.answer == answer)
    ensures |r.sources| == Min(MaxSources, |articles|)
    ensures forall i :: 0 <= i < |r.sources| ==> r.sources[i] == Source(articles[i].title, articles[i].link)
  {
    var n := Min(MaxSources, |articles|);
    FinalResponse(query, Trim(answer), confidence,
      seq(n, i requires 0 <= i < n => Source(articles[i].title, articles[i].link)))
  }

  /*** processResponse (nlp.js:9-43) ***/

  /** `(modelResponse.answer || '').trim()`. */
  function GivenAnswer(record: AnswerRecord): string
  {
    match record.answer
    case None => ""
    case Some(answer) => Trim(answer)
  }

  /** `modelResponse.score || 0`. */
  function ScoreOrZero(score: Option<real>): real
  {
    match score
    case None => 0.0
    case Some(v) => v
  }

  /** The given answer is empty or says "no answer" in any ASCII case. */
  predicate NeedsFallback(answer: string)
  {
    answer == "" || Contains(Lower(answer), "no answer")
  }

  /** The answer before the final length check: the given one, or the joined extracted sentences when any. */
  function ChosenAnswer(given: string, extracted: seq<string>): string
  {
    if NeedsFallback(given) && extracted != [] then Join(extracted, " ") else given
  }

  /** The answer text after the length check: too short an answer becomes the default message. */
  function CheckedAnswer(answer: string): string
  {
    if |answer| < MinAnswerLength then DefaultAnswer else answer
  }

  /** What `processResponse` returns, with extraction given by `RelevantInfo`. */
  function ProcessedResponse(tokenize: Tokenizer, record: AnswerRecord, articles: seq<Article>, query: string): Response
  {
    var given := GivenAnswer(record);
    var confidence := ScoreOrZero(record.score);
    if !NeedsFallback(given) then
      Answered(FormatResponse(query, CheckedAnswer(given), confidence, articles))
    else
      match RelevantInfo(tokenize, articles, query)
      case Err(_) => ErrorReply(ProcessingError)
      case Ok(extracted) => Answered(FormatResponse(query, CheckedAnswer(ChosenAnswer(given, extracted)), confidence, articles))
  }

  /**
    `processResponse`: trim the given answer; if it is empty or says "no
    answer", extract sentences from the articles and use them joined by
    spaces when there are any; replace an answer shorter than five
    characters by the default message; format the result. A failure of the
    extraction is caught and reported with the processing error message.
  */
  method ProcessResponse(tokenize: Tokenizer, record: AnswerRecord, articles: seq<Article>, query: string) returns (r: Response)
    ensures r == ProcessedResponse(tokenize, record, articles, query)
  {
    var finalAnswer := GivenAnswer(record);
    var confidence := ScoreOrZero(record.score);
    ghost var chosen := finalAnswer;
    if finalAnswer == "" || Contains(Lower(finalAnswer), "no answer") {
      var fallbackText := ExtractRelevantInfo(tokenize, articles, query);
      if fallbackText.Err? {
        ProcessedOnFailure(tokenize, record, articles, query);
        return ErrorReply(ProcessingError);
      }
      if |fallbackText.value| > 0 {
        finalAnswer := Join(fallbackText.value, " ");
      }
      chosen := ChosenAnswer(GivenAnswer(record), fallbackText.value);
    }
    assert finalAnswer == chosen;
    if finalAnswer == "" || |finalAnswer| < MinAnswerLength {
      finalAnswer := DefaultAnswer;
    }
    assert finalAnswer == CheckedAnswer(chosen);
    ProcessedAnswer(tokenize, record, articles, query);
    r := Answered(FormatResponse(query, finalAnswer, confidence, articles));
  }

  /** A failed extraction makes `ProcessedResponse` the error reply. */
  lemma ProcessedOnFailure(tokenize: Tokenizer, record: AnswerRecord, articles: seq<Article>, query: string)
    requires NeedsFallback(GivenAnswer(record)) && RelevantInfo(tokenize, articles, query).Err?
    ensures ProcessedResponse(tokenize, record, articles, query) == ErrorReply(ProcessingError)
  {
  }

  /** Otherwise `ProcessedResponse` formats the answer chosen from the given one and the extracted sentences. */
  lemma ProcessedAnswer(tokenize: Tokenizer, record: AnswerRecord, articles: seq<Article>, query: string)
    ensures var given := GivenAnswer(record);
      var info := RelevantInfo(tokenize, articles, query);
      && (!NeedsFallback(given) ==>
            ProcessedResponse(tokenize, record, articles, query)
              == Answered(FormatResponse(query, CheckedAnswer(given), ScoreOrZero(record.score), articles)))
      && (NeedsFallback(given) && info.Ok? ==>
            ProcessedResponse(tokenize, record, articles, query)
              == Answered(FormatResponse(query, CheckedAnswer(ChosenAnswer(given, info.value)), ScoreOrZero(record.score), articles)))
  {
  }

  /** Only a failed extraction produces the error reply, and it always carries the processing error message. */
  lemma ErrorOnlyFromExtraction(tokenize: Tokenizer, record: AnswerRecord, articles: seq<Article>, query: string)
    ensures var r := ProcessedResponse(tokenize, record, articles, query);
      && (r.ErrorReply? <==> NeedsFallback(GivenAnswer(record)) && RelevantInfo(tokenize, articles, query).Err?)
      && (r.ErrorReply? ==> r.error == ProcessingError)
  {
  }

  /** The question and the confidence are passed through, and the sources are the first three articles. */
  lemma ResponseFields(tokenize: Tokenizer, record: AnswerRecord, articles: seq<Article>, query: string)
    ensures var r := ProcessedResponse(tokenize, record, articles, query);
      r.Answered? ==>
        && r.response.question == query
        && r.response.confidence == ScoreOrZero(record.score)
        && |r.response.sources| == Min(MaxSources, |articles|)
        && (forall i :: 0 <= i < |r.response.sources| ==>
              r.response.sources[i] == Source(articles[i].title, articles[i].link))
  {
  }

  /** A trimmed given answer of at least five characters that does not say "no answer" is returned as it is. */
  lemma KeepsSufficientAnswer(tokenize: Tokenizer, record: AnswerRecord, articles: seq<Article>, query: string)
    requires !NeedsFallback(GivenAnswer(record)) && |GivenAnswer(record)| >= MinAnswerLength
    ensures ProcessedResponse(tokenize, record, articles, query).Answered?
    ensures ProcessedResponse(tokenize, record, articles, query).response.answer == GivenAnswer(record)
  {
  }

  /** A blank string has no visible character. */
  lemma {:induction false} JoinOfBlanks(parts: seq<string>)
    requires forall p :: p in parts ==> p == ""
    ensures |Join(parts, " ")| == if parts == [] then 0 else |parts| - 1
    decreases |parts|
  {
    if parts != [] {
      assert parts[0] in parts;
    }
    if |parts| > 1 {
      assert forall p :: p in parts[1..] ==> p in parts;
      JoinOfBlanks(parts[1..]);
    }
  }

  /** A visible character of one part is a visible character of the joined text. */
  lemma {:induction false} JoinKeepsVisible(parts: seq<string>, k: nat)
    requires k < |parts| && HasVisible(parts[k])
    ensures HasVisible(Join(parts, " "))
    decreases |parts|
  {
    var i :| 0 <= i < |parts[k]| && !IsWhitespace(parts[k][i]);
    if |parts| == 1 {
    } else if k == 0 {
      assert Join(parts, " ")[i] == parts[0][i];
    } else {
      JoinKeepsVisible(parts[1..], k - 1);
      var rest := Join(parts[1..], " ");
      var j :| 0 <= j < |rest| && !IsWhitespace(rest[j]);
      assert Join(parts, " ")[|parts[0]| + 1 + j] == rest[j];
    }
  }

  /** A string that is its own trim and not empty has a visible character. */
  lemma TrimmedNonEmptyIsVisible(s: string)
    requires s != [] && NoEdgeWhitespace(s)
    ensures HasVisible(s)
  {
    assert !IsWhitespace(s[0]);
  }

  /** The length check leaves a visible answer when a long enough answer is visible. */
  lemma CheckedAnswerVisible(answer: string)
    requires |answer| >= MinAnswerLength ==> HasVisible(answer)
    ensures HasVisible(CheckedAnswer(answer))
  {
    assert DefaultAnswer[|DefaultAnswer| - 1] == '.';
  }

  /** Joined extracted sentences of five or more characters hold a visible character. */
  lemma JoinedMatchesVisible(tokenize: Tokenizer, articles: seq<Article>, query: string)
    requires RelevantInfo(tokenize, articles, query).Ok?
    requires |Join(RelevantInfo(tokenize, articles, query).value, " ")| >= MinAnswerLength
    ensures HasVisible(Join(RelevantInfo(tokenize, articles, query).value, " "))
  {
    var extracted := RelevantInfo(tokenize, articles, query).value;
    RelevantInfoBound(tokenize, articles, query);
    RelevantInfoFromArticles(tokenize, articles, query);
    if forall p :: p in extracted ==> p == "" {
      JoinOfBlanks(extracted);
    } else {
      var p :| p in extracted && p != "";
      var k :| 0 <= k < |extracted| && extracted[k] == p;
      assert FromArticles(tokenize, tokenize(Lower(query)), articles, p);
      TrimmedNonEmptyIsVisible(p);
      JoinKeepsVisible(extracted, k);
    }
  }

  /**
    The answer of a formatted response is never empty: a given answer is
    kept only when it has at least five characters, and joined sentences
    of five or more characters hold a visible character, because the
    sentences are trimmed and at most five empty ones join to four spaces.
  */
  lemma AnswerNeverEmpty(tokenize: Tokenizer, record: AnswerRecord, articles: seq<Article>, query: string)
    ensures var r := ProcessedResponse(tokenize, record, articles, query);
      r.Answered? ==> r.response.answer != ""
  {
    var given := GivenAnswer(record);
    var info := RelevantInfo(tokenize, articles, query);
    ProcessedAnswer(tokenize, record, articles, query);
    if given != [] {
      TrimmedNonEmptyIsVisible(given);
    }
    if NeedsFallback(given) && info.Ok? {
      if info.value != [] && |Join(info.value, " ")| >= MinAnswerLength {
        JoinedMatchesVisible(tokenize, articles, query);
      }
      CheckedAnswerVisible(ChosenAnswer(given, info.value));
    } else if !NeedsFallback(given) {
      CheckedAnswerVisible(given);
    }
  }

  /** When the fallback finds nothing, the given answer is kept, "no answer" and all, if it has at least five characters. */
  lemma KeepsAnswerWhenNothingExtracted(tokenize: Tokenizer, record: AnswerRecord, articles: seq<Article>, query: string)
    requires NeedsFallback(GivenAnswer(record)) && RelevantInfo(tokenize, articles, query) == Ok([])
    requires |GivenAnswer(record)| >= MinAnswerLength
    ensures ProcessedResponse(tokenize, record, articles, query).Answered?
    ensures ProcessedResponse(tokenize, record, articles, query).response.answer == GivenAnswer(record)
  {
    assert NoEdgeWhitespace(GivenAnswer(record));
  }

  /** The default message is its own trim. */
  lemma DefaultAnswerTrimmed()
    ensures NoEdgeWhitespace(DefaultAnswer)
  {
    assert DefaultAnswer[0] == 'N' && DefaultAnswer[|DefaultAnswer| - 1] == '.';
  }

  /** An answer shorter than five characters after the fallback becomes the default message. */
  lemma ShortAnswerBecomesDefault(tokenize: Tokenizer, record: AnswerRecord, articles: seq<Article>, query: string)
    ensures var given := GivenAnswer(record);
      var info := RelevantInfo(tokenize, articles, query);
      var r := ProcessedResponse(tokenize, record, articles, query);
      && (!NeedsFallback(given) && |given| < MinAnswerLength ==> r.Answered? && r.response.answer == DefaultAnswer)
      && (NeedsFallback(given) && info.Ok? && |ChosenAnswer(given, info.value)| < MinAnswerLength ==>
            r.Answered? && r.response.answer == DefaultAnswer)
  {
    DefaultAnswerTrimmed();
    ProcessedAnswer(tokenize, record, articles, query);
  }

  /** The tokenizer finds no token in text without a visible character, as `natural`'s word tokenizer does. */
  ghost predicate BlankHasNoTokens(tokenize: Tokenizer)
  {
    forall s :: !HasVisible(s) ==> tokenize(s) == []
  }

  /** With such a tokenizer, a relevant fragment has a visible character. */
  lemma RelevantIsVisible(tokenize: Tokenizer, queryTokens: seq<string>, f: string)
    requires BlankHasNoTokens(tokenize) && Relevant(tokenize, queryTokens, f)
    ensures HasVisible(f)
  {
    var t :| t in queryTokens && t in tokenize(Lower(f));
    assert HasVisible(Lower(f));
    var i :| 0 <= i < |Lower(f)| && !IsWhitespace(Lower(f)[i]);
    assert !IsWhitespace(f[i]);
  }

  /** With such a tokenizer, every extracted sentence is non-empty and trimmed. */
  lemma ExtractedAreTrimmed(tokenize: Tokenizer, articles: seq<Article>, query: string)
    requires BlankHasNoTokens(tokenize) && RelevantInfo(tokenize, articles, query).Ok?
    ensures forall m :: m in RelevantInfo(tokenize, articles, query).value ==> m != "" && NoEdgeWhitespace(m)
  {
    var queryTokens := tokenize(Lower(query));
    RelevantInfoFromArticles(tokenize, articles, query);
    forall m | m in RelevantInfo(tokenize, articles, query).value ensures m != "" && NoEdgeWhitespace(m) {
      assert FromArticles(tokenize, queryTokens, articles, m);
      var k, f :| 0 <= k < |articles| && articles[k].content.Some?
        && f in Fragments(articles[k].content.value) && Relevant(tokenize, queryTokens, f) && m == Trim(f);
      RelevantIsVisible(tokenize, queryTokens, f);
    }
  }

  /** Non-empty trimmed parts joined by spaces give a trimmed text. */
  lemma JoinOfTrimmed(parts: seq<string>)
    requires parts != [] && forall p :: p in parts ==> p != "" && NoEdgeWhitespace(p)
    ensures NoEdgeWhitespace(Join(parts, " "))
  {
    var first, last := parts[0], parts[|parts| - 1];
    assert first in parts && last in parts;
    var r := Join(parts, " ");
    assert r[0] == r[..|first|][0];
    assert r[|r| - 1] == r[|r| - |last|..][|last| - 1];
  }

  /** The length check turns a trimmed answer into a trimmed answer of at least five characters. */
  lemma CheckedAnswerTrimmed(answer: string)
    requires NoEdgeWhitespace(answer)
    ensures NoEdgeWhitespace(CheckedAnswer(answer)) && |CheckedAnswer(answer)| >= MinAnswerLength
  {
    DefaultAnswerTrimmed();
  }

  /**
    With a tokenizer that finds no token in blank text, the returned answer
    always has at least five characters: the given answer and the extracted
    sentences are already trimmed, so the trim in `formatResponse` cannot
    shorten an answer that passed the length check.
  */
  lemma AnswerAtLeastFive(tokenize: Tokenizer, record: AnswerRecord, articles: seq<Article>, query: string)
    requires BlankHasNoTokens(tokenize)
    ensures var r := ProcessedResponse(tokenize, record, articles, query);
      r.Answered? ==> |r.response.answer| >= MinAnswerLength
  {
    var given := GivenAnswer(record);
    var info := RelevantInfo(tokenize, articles, query);
    ProcessedAnswer(tokenize, record, articles, query);
    assert NoEdgeWhitespace(given);
    if NeedsFallback(given) && info.Ok? {
      if info.value != [] {
        ExtractedAreTrimmed(tokenize, articles, query);
        JoinOfTrimmed(info.value);
      }
      CheckedAnswerTrimmed(ChosenAnswer(given, info.value));
    } else {
      CheckedAnswerTrimmed(given);
    }
  }

  /** The record `processResponse` sees when it is handed `getModelResponse`'s result: its answer and no score. */
  function RecordOf(m: RagModel.ModelResponse): AnswerRecord
  {
    AnswerRecord(Some(m.answer), None)
  }

  /**
    Handed the answer of the context pipeline, the response's confidence is
    0 whatever the pipeline's own confidence, since that object has no
    `score` field.
  */
  lemma PipelineConfidenceIsZero(tokenize: Tokenizer, m: RagModel.ModelResponse, articles: seq<Article>, query: string)
    ensures var r := ProcessedResponse(tokenize, RecordOf(m), articles, query);
      r.Answered? ==> r.response.confidence == 0.0
  {
  }
}
