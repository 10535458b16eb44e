/** Space-delimited tokenization of a text (string_processing.cpp). Only the character ' '
    separates tokens; every other character, tabs and newlines included, belongs to a token. */
module Tokenizer {

  /** The end of the run of non-space characters that starts at position `i`: the first
      position at or after `i` that holds a space, or `|s|` when there is none. */
  function RunEnd(s: string, i: nat): (e: nat)
    requires i <= |s|
    ensures i <= e <= |s|
    ensures forall k :: i <= k < e ==> s[k] != ' '
    ensures e == |s| || s[e] == ' '
    decreases |s| - i
  {
    if i == |s| || s[i] == ' ' then i else RunEnd(s, i + 1)
  }

  /** The tokens of `s` that start at or after position `i`, left to right. */
  function WordsFrom(s: string, i: nat): seq<string>
    requires i <= |s|
    decreases |s| - i
  {
    if i == |s| then []
    else if s[i] == ' ' then WordsFrom(s, i + 1)
    else var e := RunEnd(s, i); [s[i..e]] + WordsFrom(s, e)
  }

  /** The tokens of `s`: its maximal runs of non-space characters, left to right. */
  function Words(s: string): seq<string>
  {
    WordsFrom(s, 0)
  }

  /** A half-open range `[start, end)` of positions of a text. */
  datatype Span = Span(start: nat, end: nat)

  /** The positions of the tokens of `s` that start at or after position `i`: non-empty
      ranges inside `i..|s|`, in increasing order, separated by at least one position. */
  ghost function SpansFrom(s: string, i: nat): (r: seq<Span>)
    requires i <= |s|
    ensures forall k :: 0 <= k < |r| ==> i <= r[k].start < r[k].end <= |s|
    ensures forall k :: 0 <= k < |r| - 1 ==> r[k].end < r[k + 1].start
    decreases |s| - i
  {
    if i == |s| then []
    else if s[i] == ' ' then SpansFrom(s, i + 1)
    else
      var e := RunEnd(s, i);
      var rest := SpansFrom(s, e);
      assert rest != [] ==> s[e] == ' ' && e < rest[0].start;
      [Span(i, e)] + rest
  }

  /** Each token is the slice of the text at its span. */
  lemma {:induction false} SpansLocateWords(s: string, i: nat)
    requires i <= |s|
    ensures |SpansFrom(s, i)| == |WordsFrom(s, i)|
    ensures forall k :: 0 <= k < |SpansFrom(s, i)| ==>
              WordsFrom(s, i)[k] == s[SpansFrom(s, i)[k].start..SpansFrom(s, i)[k].end]
    decreases |s| - i
  {
    if i == |s| {
    } else if s[i] == ' ' {
      SpansLocateWords(s, i + 1);
    } else {
      var e := RunEnd(s, i);
      SpansLocateWords(s, e);
    }
  }

  /** Every span is a maximal run: it holds no space and is bounded on both sides by a space
      or by an end of the scanned range. */
  lemma {:induction false} SpansAreMaximal(s: string, i: nat)
    requires i <= |s|
    ensures forall k, p :: 0 <= k < |SpansFrom(s, i)| && SpansFrom(s, i)[k].start <= p < SpansFrom(s, i)[k].end ==> s[p] != ' '
    ensures forall k :: 0 <= k < |SpansFrom(s, i)| && SpansFrom(s, i)[k].end < |s| ==> s[SpansFrom(s, i)[k].end] == ' '
    ensures forall k :: 0 <= k < |SpansFrom(s, i)| && SpansFrom(s, i)[k].start > i ==> s[SpansFrom(s, i)[k].start - 1] == ' '
    decreases |s| - i
  {
    if i == |s| {
    } else if s[i] == ' ' {
      SpansAreMaximal(s, i + 1);
    } else {
      var e := RunEnd(s, i);
      SpansAreMaximal(s, e);
      var rest := SpansFrom(s, e);
      var sp := SpansFrom(s, i);
      assert sp == [Span(i, e)] + rest;
      forall k | 0 < k < |sp| ensures sp[k].start > e {
        assert sp[k] == rest[k - 1];
        assert s[e] == ' ' && rest[k - 1].start >= e;
      }
    }
  }

  /** Every non-space position at or after `i` lies inside some span. */
  lemma {:induction false} SpansCoverNonSpaces(s: string, i: nat, p: nat)
    requires i <= p < |s| && s[p] != ' '
    ensures exists k :: 0 <= k < |SpansFrom(s, i)| && SpansFrom(s, i)[k].start <= p < SpansFrom(s, i)[k].end
    decreases |s| - i
  {
    var sp := SpansFrom(s, i);
    if s[i] == ' ' {
      SpansCoverNonSpaces(s, i + 1, p);
    } else {
      var e := RunEnd(s, i);
      if p < e {
        assert sp[0].start <= p < sp[0].end;
      } else {
        SpansCoverNonSpaces(s, e, p);
        var rest := SpansFrom(s, e);
        var k :| 0 <= k < |rest| && rest[k].start <= p < rest[k].end;
        assert sp[k + 1] == rest[k];
      }
    }
  }

  /** Every token is non-empty and holds no space. */
  lemma {:induction false} WordsAreNonEmptyAndSpaceFree(s: string, i: nat)
    requires i <= |s|
    ensures forall k :: 0 <= k < |WordsFrom(s, i)| ==> WordsFrom(s, i)[k] != [] && ' ' !in WordsFrom(s, i)[k]
    decreases |s| - i
  {
    if i == |s| {
    } else if s[i] == ' ' {
      WordsAreNonEmptyAndSpaceFree(s, i + 1);
    } else {
      var e := RunEnd(s, i);
      WordsAreNonEmptyAndSpaceFree(s, e);
      assert ' ' !in s[i..e] by {
        forall k | 0 <= k < e - i ensures s[i..e][k] != ' ' {
          assert s[i..e][k] == s[i + k];
        }
      }
    }
  }

  /** Positions `i..j` hold only spaces, so no token starts among them. */
  lemma {:induction false} SkipSpaces(s: string, i: nat, j: nat)
    requires i <= j <= |s|
    requires forall k :: i <= k < j ==> s[k] == ' '
    ensures WordsFrom(s, i) == WordsFrom(s, j)
    decreases j - i
  {
    if i < j {
      SkipSpaces(s, i + 1, j);
    }
  }

  /** A text (or a suffix of it) yields no token exactly when it holds nothing but spaces. */
  lemma {:induction false} NoWordsIffAllSpaces(s: string, i: nat)
    requires i <= |s|
    ensures WordsFrom(s, i) == [] <==> forall k :: i <= k < |s| ==> s[k] == ' '
    decreases |s| - i
  {
    if i < |s| {
      NoWordsIffAllSpaces(s, i + 1);
    }
  }

  /** A token starting at position `i` ends at the first space at or after `i`. */
  lemma RunEndIsFirstSpace(s: string, i: nat, e: nat)
    requires i <= e <= |s|
    requires forall k :: i <= k < e ==> s[k] != ' '
    requires e == |s| || s[e] == ' '
    ensures RunEnd(s, i) == e
  {
  }

  /** A token starts at `off` and the first space after it is at `space` (or there is none):
      the tokens from `off` are that token followed by the tokens after the space. */
  lemma TokenThenRest(s: string, off: nat, space: nat)
    requires off < space <= |s| && s[off] != ' '
    requires forall k :: off <= k < space ==> s[k] != ' '
    requires space == |s| || s[space] == ' '
    ensures WordsFrom(s, off) == [s[off..space]] + WordsFrom(s, if space == |s| then |s| else space + 1)
  {
    RunEndIsFirstSpace(s, off, space);
    if space < |s| {
      assert WordsFrom(s, space) == WordsFrom(s, space + 1);
    }
  }

  /** A non-empty text without a space is a single token, whatever other characters it holds. */
  lemma OnlySpaceSeparates(s: string)
    requires s != [] && ' ' !in s
    ensures Words(s) == [s]
  {
    forall k | 0 <= k < |s| ensures s[k] != ' ' {
      assert s[k] in s;
    }
    RunEndIsFirstSpace(s, 0, |s|);
    assert s[0..|s|] == s;
    assert WordsFrom(s, 0) == [s[0..|s|]] + WordsFrom(s, |s|);
  }

  /** `RunEnd` depends only on the text from position `i` on. */
  lemma {:induction false} RunEndShift(s: string, i: nat, t: string, j: nat)
    requires i <= |s| && j <= |t| && s[i..] == t[j..]
    ensures RunEnd(s, i) - i == RunEnd(t, j) - j
    decreases |s| - i
  {
    if i < |s| {
      assert s[i] == s[i..][0] == t[j..][0] == t[j];
      assert s[i + 1..] == s[i..][1..] == t[j..][1..] == t[j + 1..];
      RunEndShift(s, i + 1, t, j + 1);
    }
  }

  /** The tokens from position `i` on depend only on the text from position `i` on. */
  lemma {:induction false} WordsFromShift(s: string, i: nat, t: string, j: nat)
    requires i <= |s| && j <= |t| && s[i..] == t[j..]
    ensures WordsFrom(s, i) == WordsFrom(t, j)
    decreases |s| - i
  {
    if i < |s| {
      assert s[i] == s[i..][0] == t[j..][0] == t[j];
      if s[i] == ' ' {
        assert s[i + 1..] == s[i..][1..] && t[j + 1..] == t[j..][1..];
        WordsFromShift(s, i + 1, t, j + 1);
      } else {
        RunEndShift(s, i, t, j);
        var e := RunEnd(s, i);
        var f := RunEnd(t, j);
        assert e - i == f - j;
        assert s[i..e] == s[i..][..e - i];
        assert t[j..f] == t[j..][..f - j];
        assert s[e..] == s[i..][e - i..];
        assert t[f..] == t[j..][f - j..];
        WordsFromShift(s, e, t, f);
        assert WordsFrom(s, i) == [s[i..e]] + WordsFrom(s, e);
        assert WordsFrom(t, j) == [t[j..f]] + WordsFrom(t, f);
      }
    }
  }

  /** Joins tokens with one space between neighbours. */
  function JoinWords(ts: seq<string>): string
  {
    if ts == [] then [] else if |ts| == 1 then ts[0] else ts[0] + " " + JoinWords(ts[1..])
  }

  /** Tokenizing non-empty, space-free tokens joined by single spaces gives the tokens back. */
  lemma {:induction false} SplitJoinRoundTrip(ts: seq<string>)
    requires forall k :: 0 <= k < |ts| ==> ts[k] != [] && ' ' !in ts[k]
    ensures Words(JoinWords(ts)) == ts
  {
    if ts == [] {
    } else if |ts| == 1 {
      OnlySpaceSeparates(ts[0]);
    } else {
      var t := ts[0];
      var rest := JoinWords(ts[1..]);
      var s := JoinWords(ts);
      assert s == t + " " + rest;
      forall k | 0 <= k < |t| ensures s[k] != ' ' {
        assert s[k] == t[k] && t[k] in t;
      }
      assert s[|t|] == ' ';
      RunEndIsFirstSpace(s, 0, |t|);
      assert s[0..|t|] == t;
      assert WordsFrom(s, |t|) == WordsFrom(s, |t| + 1);
      assert s[|t| + 1..] == rest[0..];
      WordsFromShift(s, |t| + 1, rest, 0);
      SplitJoinRoundTrip(ts[1..]);
      assert Words(s) == [t] + ts[1..];
    }
  }

  /** `find_first_not_of(c)` on the view of `s` that starts at `from`: the first position at
      or after `from` not holding `c`, or `|s|` (standing for `npos`) when there is none.
      Positions are absolute, i.e. offsets into `s` rather than into the view. */
  function FindFirstNotOf(s: string, from: nat, c: char): (p: nat)
    requires from <= |s|
    ensures from <= p <= |s|
    ensures forall k :: from <= k < p ==> s[k] == c
    ensures p < |s| ==> s[p] != c
    decreases |s| - from
  {
    if from == |s| || s[from] != c then from else FindFirstNotOf(s, from + 1, c)
  }

  /** `find(c)` on the view of `s` that starts at `from`: the first position at or after
      `from` holding `c`, or `|s|` for `npos`; positions are absolute. */
  function Find(s: string, from: nat, c: char): (p: nat)
    requires from <= |s|
    ensures from <= p <= |s|
    ensures forall k :: from <= k < p ==> s[k] != c
    ensures p < |s| ==> s[p] == c
    decreases |s| - from
  {
    if from == |s| || s[from] == c then from else Find(s, from + 1, c)
  }

  /** `SplitIntoWords` of string_processing.cpp. The `std::string_view` that the source
      shortens with `remove_prefix` is the suffix of `text` starting at `off`: each round
      skips leading spaces, then cuts the token up to the next space and drops it, together
      with that space, from the front of the view. */
  method SplitIntoWords(text: string) returns (result: seq<string>)
    ensures result == Words(text)
  {
    result := [];
    var firstNonSpace := FindFirstNotOf(text, 0, ' ');
    if firstNonSpace == |text| {
      NoWordsIffAllSpaces(text, 0);
      return [];
    }
    SkipSpaces(text, 0, firstNonSpace);
    var off := firstNonSpace;
    while off != |text|
      invariant off <= |text|
      invariant Words(text) == result + WordsFrom(text, off)
      decreases |text| - off
    {
      if FindFirstNotOf(text, off, ' ') == |text| {
        SkipSpaces(text, off, |text|);
        break;
      }
      if text[off] == ' ' {
        var skip := FindFirstNotOf(text, off, ' ');
        SkipSpaces(text, off, skip);
        off := skip;
      }
      var space := Find(text, off, ' ');
      TokenThenRest(text, off, space);
      var next := if space == |text| then |text| else space + 1;
      result := result + [text[off..space]];
      off := next;
    }
  }
}
