/**
 * The word counter of the notes service: the text is cleaned by turning
 * every run of characters that are neither whitespace nor word
 * characters into one space, lower-cased and split on whitespace; the
 * result is either the number of words or the number of words that occur
 * exactly once.
 */
module WordCount {
  import opened Wrappers
  import opened Chars

  /** The `text` argument as the caller passes it: a `str`, or some other object. */
  datatype TextArg = Text(s: string) | NotText

  const NotTextMessage: string := "Type of \"text\" must be str."

  /** Leading characters that are neither whitespace nor word characters, dropped:
      the rest of one match of `[^\s\w]+`. */
  function SkipPunct(s: string): (r: string)
    ensures |r| <= |s| && r == s[|s| - |r|..]
    ensures forall i :: 0 <= i < |s| - |r| ==> !IsSpace(s[i]) && !IsWordChar(s[i])
    ensures r == [] || IsSpace(r[0]) || IsWordChar(r[0])
    decreases |s|
  {
    if s != [] && !IsSpace(s[0]) && !IsWordChar(s[0]) then SkipPunct(s[1..]) else s
  }

  /** `re.sub(r'[^\s\w]+', ' ', s)`: each maximal run of characters that are
      neither whitespace nor word characters becomes a single space. */
  function Substitute(s: string): (r: string)
    ensures |r| <= |s|
    ensures forall i :: 0 <= i < |r| ==> IsSpace(r[i]) || IsWordChar(r[i])
    decreases |s|
  {
    if s == [] then []
    else if IsSpace(s[0]) || IsWordChar(s[0]) then [s[0]] + Substitute(s[1..])
    else [' '] + Substitute(SkipPunct(s[1..]))
  }

  function Flush(cur: string): seq<string> {
    if cur == [] then [] else [cur]
  }

  /** Splits `s` at the characters `sep` accepts, after the partial word
      `cur`; runs of separators count as one and no empty word is produced. */
  function SplitFrom(s: string, sep: char -> bool, cur: string): seq<string>
    decreases |s|
  {
    if s == [] then Flush(cur)
    else if sep(s[0]) then Flush(cur) + SplitFrom(s[1..], sep, [])
    else SplitFrom(s[1..], sep, cur + [s[0]])
  }

  /** `str.split()` with no argument. */
  function SplitWhitespace(s: string): seq<string> {
    SplitFrom(s, IsSpace, [])
  }

  /** The word list the service builds: `re.sub(...).lower().split()`.
      Every word is a non-empty run of lower-case word characters. */
  function Words(s: string): (r: seq<string>)
    ensures forall t :: t in r ==>
              |t| > 0 && forall i :: 0 <= i < |t| ==> IsWordChar(t[i]) && !IsUpper(t[i])
  {
    var u := LowerStr(Substitute(s));
    SplitShape(u, IsSpace, []);
    SplitWhitespace(u)
  }

  /** Reference tokeniser: the maximal runs of word characters of the
      lower-cased text, with every other character a separator. */
  function Tokens(s: string): seq<string> {
    SplitFrom(LowerStr(s), IsNonWord, [])
  }

  /** Concatenation of a list of words. */
  function Flatten(ws: seq<string>): string {
    if ws == [] then [] else ws[0] + Flatten(ws[1..])
  }

  /** The word characters of `s`, in order. */
  function WordCharsOf(s: string): (r: string)
    ensures forall i :: 0 <= i < |r| ==> IsWordChar(r[i])
  {
    if s == [] then []
    else if IsWordChar(s[0]) then [s[0]] + WordCharsOf(s[1..])
    else WordCharsOf(s[1..])
  }

  /** The words that occur exactly once: the keys of `Counter(words)` whose count is 1. */
  function OnceWords(ws: seq<string>): set<string> {
    set w | w in ws && multiset(ws)[w] == 1
  }

  predicate Distinct(ws: seq<string>) {
    forall i, j :: 0 <= i < j < |ws| ==> ws[i] != ws[j]
  }

  function Elems(ws: seq<string>): set<string> {
    set w | w in ws
  }

  // ---------------------------------------------------------------------
  // The cleaning step changes nothing about the words.

  lemma {:induction false} SplitSameSeparators(s: string, p: char -> bool, q: char -> bool, cur: string)
    requires forall i :: 0 <= i < |s| ==> p(s[i]) == q(s[i])
    ensures SplitFrom(s, p, cur) == SplitFrom(s, q, cur)
    decreases |s|
  {
    if s != [] {
      if p(s[0]) {
        SplitSameSeparators(s[1..], p, q, []);
      } else {
        SplitSameSeparators(s[1..], p, q, cur + [s[0]]);
      }
    }
  }

  lemma {:induction false} SkipSeparators(s: string, n: nat, sep: char -> bool)
    requires n <= |s|
    requires forall i :: 0 <= i < n ==> sep(s[i])
    ensures SplitFrom(s, sep, []) == SplitFrom(s[n..], sep, [])
    decreases n
  {
    if n > 0 {
      assert sep(s[0]);
      SkipSeparators(s[1..], n - 1, sep);
      assert s[1..][n - 1..] == s[n..];
    }
  }

  lemma LowerStrTail(s: string)
    requires s != []
    ensures LowerStr(s) == [Lower(s[0])] + LowerStr(s[1..])
  {
  }

  lemma {:induction false} SubstituteKeepsTokens(s: string, cur: string)
    ensures SplitFrom(LowerStr(Substitute(s)), IsNonWord, cur) == SplitFrom(LowerStr(s), IsNonWord, cur)
    decreases |s|
  {
    if s != [] {
      LowerStrTail(s);
      var c := s[0];
      if IsSpace(c) || IsWordChar(c) {
        var rest := Substitute(s[1..]);
        assert Substitute(s) == [c] + rest;
        LowerStrTail([c] + rest);
        assert ([c] + rest)[1..] == rest;
        if IsNonWord(Lower(c)) {
          SubstituteKeepsTokens(s[1..], []);
        } else {
          SubstituteKeepsTokens(s[1..], cur + [Lower(c)]);
        }
      } else {
        var k := SkipPunct(s[1..]);
        var rest := Substitute(k);
        assert Substitute(s) == [' '] + rest;
        LowerStrTail([' '] + rest);
        assert ([' '] + rest)[1..] == rest;
        SubstituteKeepsTokens(k, []);
        PunctRunSeparates(s[1..]);
      }
    }
  }

  /** A run of punctuation only separates tokens. */
  lemma PunctRunSeparates(t: string)
    ensures SplitFrom(LowerStr(t), IsNonWord, []) == SplitFrom(LowerStr(SkipPunct(t)), IsNonWord, [])
  {
    var k := SkipPunct(t);
    var n := |t| - |k|;
    assert LowerStr(t)[n..] == LowerStr(k);
    SkipSeparators(LowerStr(t), n, IsNonWord);
  }

  /** The service's words are exactly the reference tokens: runs of word
      characters, lower-cased, with every other character a separator. */
  lemma WordsAreTokens(s: string)
    ensures Words(s) == Tokens(s)
  {
    var u := LowerStr(Substitute(s));
    SplitSameSeparators(u, IsSpace, IsNonWord, []);
    SubstituteKeepsTokens(s, []);
  }

  // ---------------------------------------------------------------------
  // What the tokens are.

  lemma {:induction false} SplitShape(s: string, sep: char -> bool, cur: string)
    requires forall i :: 0 <= i < |cur| ==> !sep(cur[i])
    ensures forall t :: t in SplitFrom(s, sep, cur) ==>
              |t| > 0 && forall i :: 0 <= i < |t| ==> !sep(t[i]) && (t[i] in cur || t[i] in s)
    decreases |s|
  {
    if s != [] {
      if sep(s[0]) {
        SplitShape(s[1..], sep, []);
      } else {
        SplitShape(s[1..], sep, cur + [s[0]]);
      }
    }
  }

  /** Every token is a non-empty run of lower-case word characters. */
  lemma TokenShape(s: string)
    ensures forall t :: t in Tokens(s) ==>
              |t| > 0 && forall i :: 0 <= i < |t| ==> IsWordChar(t[i]) && !IsUpper(t[i])
  {
    SplitShape(LowerStr(s), IsNonWord, []);
  }

  lemma {:induction false} FlattenAppend(a: seq<string>, b: seq<string>)
    ensures Flatten(a + b) == Flatten(a) + Flatten(b)
    decreases |a|
  {
    if a == [] {
      assert a + b == b;
    } else {
      assert (a + b)[1..] == a[1..] + b;
      FlattenAppend(a[1..], b);
    }
  }

  lemma {:induction false} SplitFlatten(s: string, cur: string)
    requires forall i :: 0 <= i < |cur| ==> IsWordChar(cur[i])
    ensures Flatten(SplitFrom(s, IsNonWord, cur)) == cur + WordCharsOf(s)
    decreases |s|
  {
    if s != [] {
      if IsNonWord(s[0]) {
        SplitFlatten(s[1..], []);
        FlattenAppend(Flush(cur), SplitFrom(s[1..], IsNonWord, []));
      } else {
        SplitFlatten(s[1..], cur + [s[0]]);
      }
    }
  }

  lemma {:induction false} WordCharsOfLower(s: string)
    ensures WordCharsOf(LowerStr(s)) == LowerStr(WordCharsOf(s))
    decreases |s|
  {
    if s != [] {
      LowerStrTail(s);
      assert LowerStr(s)[1..] == LowerStr(s[1..]);
      WordCharsOfLower(s[1..]);
      if IsWordChar(s[0]) {
        LowerStrTail(WordCharsOf(s));
      }
    }
  }

  /** Read one after another, the tokens spell out the word characters of
      the text, lower-cased, in their original order. */
  lemma TokensSpellWordChars(s: string)
    ensures Flatten(Tokens(s)) == LowerStr(WordCharsOf(s))
  {
    SplitFlatten(LowerStr(s), []);
    WordCharsOfLower(s);
  }

  lemma {:induction false} WordCharsOfEmpty(s: string)
    ensures WordCharsOf(s) == [] <==> forall i :: 0 <= i < |s| ==> !IsWordChar(s[i])
    decreases |s|
  {
    if s != [] {
      WordCharsOfEmpty(s[1..]);
      if !IsWordChar(s[0]) {
        assert forall i :: 1 <= i < |s| ==> s[i] == s[1..][i - 1];
      }
    }
  }

  lemma {:induction false} FlattenEmpty(ws: seq<string>)
    requires forall t :: t in ws ==> |t| > 0
    ensures Flatten(ws) == [] <==> ws == []
  {
    if ws != [] {
      assert ws[0] in ws;
    }
  }

  /** A text yields no words exactly when it holds no word character (it
      is empty, whitespace or punctuation only), so both counts are 0. */
  lemma NoTokensIffNoWordChars(s: string)
    ensures Tokens(s) == [] <==> forall i :: 0 <= i < |s| ==> !IsWordChar(s[i])
  {
    TokenShape(s);
    FlattenEmpty(Tokens(s));
    TokensSpellWordChars(s);
    WordCharsOfEmpty(s);
  }

  lemma {:induction false} SplitAcrossSeparator(a: string, c: char, b: string, sep: char -> bool, cur: string)
    requires sep(c)
    ensures SplitFrom(a + [c] + b, sep, cur) == SplitFrom(a, sep, cur) + SplitFrom(b, sep, [])
    decreases |a|
  {
    if a == [] {
      assert (a + [c] + b)[1..] == b;
    } else {
      assert (a + [c] + b)[1..] == a[1..] + [c] + b;
      if sep(a[0]) {
        SplitAcrossSeparator(a[1..], c, b, sep, []);
      } else {
        SplitAcrossSeparator(a[1..], c, b, sep, cur + [a[0]]);
      }
    }
  }

  /** Joining two texts with a space joins their word lists, so the total
      count is additive. */
  lemma WordsAdditive(a: string, b: string)
    ensures Words(a + " " + b) == Words(a) + Words(b)
    ensures |Words(a + " " + b)| == |Words(a)| + |Words(b)|
  {
    WordsAreTokens(a + " " + b);
    WordsAreTokens(a);
    WordsAreTokens(b);
    assert LowerStr(a + " " + b) == LowerStr(a) + [' '] + LowerStr(b);
    SplitAcrossSeparator(LowerStr(a), ' ', LowerStr(b), IsNonWord, []);
  }

  /** Changing letter case changes neither count: texts that agree once
      lower-cased have the same words. */
  lemma CaseInsensitive(s: string, t: string)
    requires LowerStr(s) == LowerStr(t)
    ensures Words(s) == Words(t)
  {
    WordsAreTokens(s);
    WordsAreTokens(t);
  }

  /** An apostrophe separates: "It's" is the two words "it" and "s". */
  lemma ApostropheSplits()
    ensures Words("It's") == ["it", "s"]
  {
    WordsAreTokens("It's");
    ApostropheTokens();
  }

  lemma ApostropheTokens()
    ensures Tokens("It's") == ["it", "s"]
  {
    assert LowerStr("It's") == "it's";
    ApostropheHead();
  }

  lemma ApostropheHead()
    ensures SplitFrom("it's", IsNonWord, "") == ["it", "s"]
  {
    ApostropheTail();
    assert "it's"[1..] == "t's" && "t's"[1..] == "'s";
    assert "" + "i" == "i" && "i" + "t" == "it";
    assert SplitFrom("t's", IsNonWord, "i") == ["it", "s"];
  }

  lemma ApostropheTail()
    ensures SplitFrom("'s", IsNonWord, "it") == ["it", "s"]
  {
    assert "'s"[1..] == "s" && "s"[1..] == "";
    assert "" + "s" == "s";
    assert SplitFrom("", IsNonWord, "s") == ["s"];
    assert SplitFrom("s", IsNonWord, "") == ["s"];
  }

  // ---------------------------------------------------------------------
  // Counting.

  lemma {:induction false} ElemsSize(ws: seq<string>)
    ensures |Elems(ws)| <= |ws|
    ensures |Elems(ws)| == |ws| <==> Distinct(ws)
    decreases |ws|
  {
    if ws != [] {
      var p := ws[..|ws| - 1];
      var w := ws[|ws| - 1];
      ElemsSize(p);
      assert ws == p + [w];
      assert Elems(ws) == Elems(p) + {w};
      if w in p {
        assert Elems(ws) == Elems(p);
        var k :| 0 <= k < |p| && p[k] == w;
        assert ws[k] == ws[|ws| - 1];
      } else {
        assert Distinct(ws) <==> Distinct(p);
      }
    }
  }

  lemma {:induction false} DistinctOnce(ws: seq<string>, w: string)
    requires Distinct(ws) && w in ws
    ensures multiset(ws)[w] == 1
    decreases |ws|
  {
    assert ws == [ws[0]] + ws[1..];
    if ws[0] == w {
      assert w !in ws[1..];
    } else {
      DistinctOnce(ws[1..], w);
    }
  }

  lemma SubsetSize(a: set<string>, b: set<string>)
    requires a <= b
    ensures |a| <= |b|
  {
    assert b == a + (b - a);
  }

  /** The exactly-once count never exceeds the total count, and equals it
      exactly when no word repeats. */
  lemma OnceAtMostTotal(ws: seq<string>)
    ensures |OnceWords(ws)| <= |ws|
    ensures |OnceWords(ws)| == |ws| <==> Distinct(ws)
  {
    ElemsSize(ws);
    SubsetSize(OnceWords(ws), Elems(ws));
    if Distinct(ws) {
      forall w | w in Elems(ws) ensures w in OnceWords(ws) {
        DistinctOnce(ws, w);
      }
      assert OnceWords(ws) == Elems(ws);
    }
  }

  /** A word that occurs twice contributes nothing to the exactly-once count. */
  lemma RepeatedWordNotCounted(ws: seq<string>, i: nat, j: nat)
    requires i < j < |ws| && ws[i] == ws[j]
    ensures ws[i] !in OnceWords(ws)
  {
    var w := ws[i];
    assert ws == ws[..i] + [w] + ws[i + 1..j] + [w] + ws[j + 1..];
    assert multiset(ws)[w] >= 2;
  }

  /** `Counter(words)`: how often each word occurs. */
  method Tally(ws: seq<string>) returns (counter: map<string, nat>)
    ensures forall w :: w in counter <==> w in ws
    ensures forall w :: w in counter ==> counter[w] == multiset(ws)[w]
  {
    counter := map[];
    var i := 0;
    while i < |ws|
      invariant 0 <= i <= |ws|
      invariant forall w :: w in counter <==> w in ws[..i]
      invariant forall w :: w in counter ==> counter[w] == multiset(ws[..i])[w]
    {
      var w := ws[i];
      assert ws[..i + 1] == ws[..i] + [w];
      counter := counter[w := if w in counter then counter[w] + 1 else 1];
      i := i + 1;
    }
    assert ws[..|ws|] == ws;
  }

  /** The keys among `keys` that were counted exactly once. */
  ghost function Ones(counter: map<string, nat>, keys: set<string>): set<string>
    requires keys <= counter.Keys
  {
    set w | w in keys && counter[w] == 1
  }

  lemma OnesAdd(counter: map<string, nat>, keys: set<string>, w: string)
    requires keys <= counter.Keys && w in counter && w !in keys
    ensures |Ones(counter, keys + {w})| == |Ones(counter, keys)| + (if counter[w] == 1 then 1 else 0)
  {
    if counter[w] == 1 {
      assert Ones(counter, keys + {w}) == Ones(counter, keys) + {w};
    } else {
      assert Ones(counter, keys + {w}) == Ones(counter, keys);
    }
  }

  /** `sum(q for q in counter.values() if q == 1)`: the number of keys counted once. */
  method SumOfOnes(counter: map<string, nat>) returns (total: nat)
    ensures total == |set w | w in counter && counter[w] == 1|
  {
    total := 0;
    var todo := counter.Keys;
    ghost var done: set<string> := {};
    while todo != {}
      invariant todo + done == counter.Keys && todo !! done
      invariant total == |Ones(counter, done)|
      decreases todo
    {
      var w :| w in todo;
      OnesAdd(counter, done, w);
      if counter[w] == 1 {
        total := total + counter[w];
      }
      done := done + {w};
      todo := todo - {w};
    }
    assert done == counter.Keys;
    assert Ones(counter, done) == set w | w in counter && counter[w] == 1;
  }

  /** `count_words_in_text(text, unique)`: a non-`str` argument is rejected;
      otherwise the number of tokens, or with `unique` the number of
      distinct tokens that occur exactly once. */
  method CountWordsInText(text: TextArg, unique: bool) returns (r: Result<nat, string>)
    ensures text.NotText? ==> r == Err(NotTextMessage)
    ensures text.Text? && !unique ==> r == Ok(|Tokens(text.s)|)
    ensures text.Text? && unique ==> r == Ok(|OnceWords(Tokens(text.s))|)
  {
    if text.NotText? {
      return Err(NotTextMessage);
    }
    var cleanText := Substitute(text.s);
    var words := SplitWhitespace(LowerStr(cleanText));
    WordsAreTokens(text.s);
    if unique {
      var counter := Tally(words);
      var n := SumOfOnes(counter);
      assert (set w | w in counter && counter[w] == 1) == OnceWords(words);
      return Ok(n);
    }
    return Ok(|words|);
  }
}
