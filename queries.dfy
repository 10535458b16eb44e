/** Word validation and query parsing of search_server.cpp: a query is split into tokens, each
    token is classified as a plus word or (with a leading '-') a minus word, stop words are
    dropped, and malformed tokens make the whole query invalid. */
module QueryParsing {
  import opened Wrappers
  import Tokenizer
  import Sorting

  /** `IsValidWord`: no character in the control range 0..31. */
  predicate IsValidWord(w: string)
  {
    forall i :: 0 <= i < |w| ==> ' ' <= w[i]
  }

  /** Validity is a property of each character, so it splits over concatenation. */
  lemma ValidConcat(a: string, b: string)
    ensures IsValidWord(a + b) <==> IsValidWord(a) && IsValidWord(b)
  {
    if IsValidWord(a + b) {
      forall i | 0 <= i < |a| ensures ' ' <= a[i] {
        assert (a + b)[i] == a[i];
      }
      forall i | 0 <= i < |b| ensures ' ' <= b[i] {
        assert (a + b)[|a| + i] == b[i];
      }
    }
  }

  /** A parsed query token: the word without its '-' prefix, whether it had one, and whether
      the word is a stop word. */
  datatype QueryWord = QueryWord(data: string, isMinus: bool, isStop: bool)

  /** The plus and minus words of a query, in the order the parser leaves them. */
  datatype Query = Query(plus: seq<string>, minus: seq<string>)

  /** `ParseQueryWord`: an empty token, a lone "-", a token starting with "--" and a token
      holding a control character are rejected; otherwise one leading '-' marks a minus word. */
  function ParseQueryWord(text: string, stopWords: set<string>): Result<QueryWord>
  {
    if |text| == 0 then Err(InvalidArgument)
    else
      var isMinus := text[0] == '-';
      var word := if isMinus then text[1..] else text;
      if |word| == 0 || word[0] == '-' || !IsValidWord(word) then Err(InvalidArgument)
      else Ok(QueryWord(word, isMinus, word in stopWords))
  }

  /** The token a parsed query word came from. */
  function Unparse(q: QueryWord): string
  {
    if q.isMinus then "-" + q.data else q.data
  }

  /** The accepted tokens are exactly the non-empty valid ones that neither are "-" nor start
      with "--"; an accepted token is recovered from its parse, whose word is non-empty and
      does not start with '-', and whose stop flag tells whether that word is a stop word. */
  lemma ParseQueryWordSpec(text: string, stopWords: set<string>)
    ensures ParseQueryWord(text, stopWords).Ok? <==>
      text != [] && text != "-" && !(|text| >= 2 && text[0] == '-' && text[1] == '-') && IsValidWord(text)
    ensures ParseQueryWord(text, stopWords).Ok? ==>
      var q := ParseQueryWord(text, stopWords).value;
      && Unparse(q) == text
      && q.isMinus == (text[0] == '-')
      && q.data != [] && q.data[0] != '-' && IsValidWord(q.data)
      && q.isStop == (q.data in stopWords)
  {
    if text != [] && text[0] == '-' {
      assert text == "-" + text[1..];
      ValidConcat("-", text[1..]);
    }
  }

  /** The tokens in order, each parsed; stop words are dropped and the rest are appended to
      the plus or the minus list. The first malformed token makes the result an error. */
  function ParseTokens(tokens: seq<string>, stopWords: set<string>): Result<Query>
    decreases |tokens|
  {
    if |tokens| == 0 then Ok(Query([], []))
    else
      match ParseTokens(tokens[..|tokens| - 1], stopWords)
      case Err(e) => Err(e)
      case Ok(q) =>
        match ParseQueryWord(tokens[|tokens| - 1], stopWords)
        case Err(e) => Err(e)
        case Ok(w) =>
          if w.isStop then Ok(q)
          else if w.isMinus then Ok(Query(q.plus, q.minus + [w.data]))
          else Ok(Query(q.plus + [w.data], q.minus))
  }

  /** `ParseQueryWithoutDeleteCopyes`: the query's words in token order, repeats kept. */
  function ParseRawQuery(text: string, stopWords: set<string>): Result<Query>
  {
    ParseTokens(Tokenizer.Words(text), stopWords)
  }

  /** `ParseQuery`: as `ParseRawQuery`, then each list sorted and its repeats dropped. */
  function ParseQuery(text: string, stopWords: set<string>): Result<Query>
  {
    match ParseRawQuery(text, stopWords)
    case Err(e) => Err(e)
    case Ok(q) => Ok(Query(Sorting.SortUnique(q.plus), Sorting.SortUnique(q.minus)))
  }

  /** A token sequence parses exactly when each of its tokens does. */
  lemma {:induction false} ParseTokensOk(tokens: seq<string>, stopWords: set<string>)
    ensures ParseTokens(tokens, stopWords).Ok? <==>
      forall k :: 0 <= k < |tokens| ==> ParseQueryWord(tokens[k], stopWords).Ok?
    decreases |tokens|
  {
    if |tokens| > 0 {
      var pre := tokens[..|tokens| - 1];
      ParseTokensOk(pre, stopWords);
      assert forall k :: 0 <= k < |pre| ==> pre[k] == tokens[k];
    }
  }

  /** Some token parses to `qw`. */
  predicate Yields(tokens: seq<string>, stopWords: set<string>, qw: QueryWord)
  {
    exists k :: 0 <= k < |tokens| && ParseQueryWord(tokens[k], stopWords) == Ok(qw)
  }

  lemma YieldsSnoc(tokens: seq<string>, stopWords: set<string>, qw: QueryWord)
    requires |tokens| > 0
    ensures Yields(tokens, stopWords, qw) <==>
      Yields(tokens[..|tokens| - 1], stopWords, qw) || ParseQueryWord(tokens[|tokens| - 1], stopWords) == Ok(qw)
  {
    var pre := tokens[..|tokens| - 1];
    if Yields(tokens, stopWords, qw) {
      var k :| 0 <= k < |tokens| && ParseQueryWord(tokens[k], stopWords) == Ok(qw);
      if k < |pre| {
        assert pre[k] == tokens[k];
      }
    }
    if Yields(pre, stopWords, qw) {
      var k :| 0 <= k < |pre| && ParseQueryWord(pre[k], stopWords) == Ok(qw);
      assert tokens[k] == pre[k];
    }
  }

  /** A word is a plus word of the parse exactly when some token parses to it as a non-stop,
      non-minus word. */
  lemma {:induction false} ParseTokensPlus(tokens: seq<string>, stopWords: set<string>, w: string)
    requires ParseTokens(tokens, stopWords).Ok?
    ensures w in ParseTokens(tokens, stopWords).value.plus <==> Yields(tokens, stopWords, QueryWord(w, false, false))
    decreases |tokens|
  {
    if |tokens| > 0 {
      ParseTokensPlus(tokens[..|tokens| - 1], stopWords, w);
      YieldsSnoc(tokens, stopWords, QueryWord(w, false, false));
    }
  }

  /** A word is a minus word of the parse exactly when some token parses to it as a non-stop
      minus word. */
  lemma {:induction false} ParseTokensMinus(tokens: seq<string>, stopWords: set<string>, w: string)
    requires ParseTokens(tokens, stopWords).Ok?
    ensures w in ParseTokens(tokens, stopWords).value.minus <==> Yields(tokens, stopWords, QueryWord(w, true, false))
    decreases |tokens|
  {
    if |tokens| > 0 {
      ParseTokensMinus(tokens[..|tokens| - 1], stopWords, w);
      YieldsSnoc(tokens, stopWords, QueryWord(w, true, false));
    }
  }

  /** Once a prefix of the tokens fails to parse, so does every extension of it. */
  lemma {:induction false} ParseTokensErrPropagates(tokens: seq<string>, i: nat, stopWords: set<string>)
    requires i <= |tokens| && ParseTokens(tokens[..i], stopWords).Err?
    ensures ParseTokens(tokens, stopWords).Err?
  {
    ParseTokensOk(tokens[..i], stopWords);
    ParseTokensOk(tokens, stopWords);
    var k :| 0 <= k < i && ParseQueryWord(tokens[..i][k], stopWords).Err?;
    assert tokens[..i][k] == tokens[k];
  }

  /** The plus and minus lists of `ParseQuery` are strictly ascending (hence duplicate-free)
      and hold exactly the words of `ParseRawQuery`; neither holds a stop word. */
  lemma ParseQuerySpec(text: string, stopWords: set<string>)
    ensures ParseQuery(text, stopWords).Ok? <==> ParseRawQuery(text, stopWords).Ok?
    ensures ParseQuery(text, stopWords).Ok? ==>
      var q := ParseQuery(text, stopWords).value;
      var raw := ParseRawQuery(text, stopWords).value;
      && Sorting.StrictlySorted(q.plus, Sorting.Less)
      && Sorting.StrictlySorted(q.minus, Sorting.Less)
      && (forall w :: w in q.plus <==> w in raw.plus)
      && (forall w :: w in q.minus <==> w in raw.minus)
      && (forall w :: w in q.plus || w in q.minus ==> w !in stopWords)
  {
    var r := ParseRawQuery(text, stopWords);
    if r.Ok? {
      Sorting.SortUniqueSpec(r.value.plus);
      Sorting.SortUniqueSpec(r.value.minus);
      var tokens := Tokenizer.Words(text);
      forall w | w in r.value.plus || w in r.value.minus ensures w !in stopWords {
        ParseTokensPlus(tokens, stopWords, w);
        ParseTokensMinus(tokens, stopWords, w);
        var k :| 0 <= k < |tokens| && ParseQueryWord(tokens[k], stopWords) in
          {Ok(QueryWord(w, false, false)), Ok(QueryWord(w, true, false))};
        ParseQueryWordSpec(tokens[k], stopWords);
      }
    }
  }

  /** Every parse failure is an `InvalidArgument`. */
  lemma RawErrorIsInvalidArgument(text: string, stopWords: set<string>)
    ensures ParseRawQuery(text, stopWords).Err? ==> ParseRawQuery(text, stopWords).error == InvalidArgument
  {
    ParseTokensErrorIsInvalidArgument(Tokenizer.Words(text), stopWords);
  }

  lemma {:induction false} ParseTokensErrorIsInvalidArgument(tokens: seq<string>, stopWords: set<string>)
    ensures ParseTokens(tokens, stopWords).Err? ==> ParseTokens(tokens, stopWords).error == InvalidArgument
    decreases |tokens|
  {
    if |tokens| > 0 {
      ParseTokensErrorIsInvalidArgument(tokens[..|tokens| - 1], stopWords);
    }
  }
}
