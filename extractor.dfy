/**
 * The two readers of a classified filing document: the company name from
 * the cover-page heading (`get_name_of_spac`) and the ticker the prospectus
 * announces (`get_ticker_of_spac`). Both work on the paragraphs the HTML
 * parser hands over.
 */
module Extractor {
  import opened Wrappers
  import Text
  import opened Records

  // ---------------------------------------------------------------- name

  /** The inline style of the cover-page paragraph that holds the company name. */
  const NameStyle: string := "margin-top:6pt; margin-bottom:0pt; font-size:22pt; font-family:Times New Roman"

  /** The position of the first paragraph whose style is exactly `NameStyle`, as `soup.find` picks it. */
  function FirstStyled(ps: seq<Paragraph>): (r: Option<nat>)
    ensures r.None? <==> forall k :: 0 <= k < |ps| ==> ps[k].style != Some(NameStyle)
    ensures r.Some? ==> r.value < |ps| && ps[r.value].style == Some(NameStyle)
    ensures r.Some? ==> forall k :: 0 <= k < r.value ==> ps[k].style != Some(NameStyle)
  {
    if ps == [] then None
    else if ps[0].style == Some(NameStyle) then Some(0)
    else
      match FirstStyled(ps[1..])
      case None => None
      case Some(j) => Some(j + 1)
  }

  function NewlineToSpace(c: char): char
  {
    if c == '\n' then ' ' else c
  }

  /**
   * `r` is the run `text[i..i + |r|]` with each newline turned into a
   * space, and everything of `text` around that run is whitespace.
   */
  predicate TidiedAt(text: string, r: string, i: int)
  {
    0 <= i && i + |r| <= |text| &&
    (forall k :: 0 <= k < |r| ==> r[k] == NewlineToSpace(text[i + k])) &&
    (forall k :: 0 <= k < i ==> Text.IsSpace(text[k])) &&
    (forall k :: i + |r| <= k < |text| ==> Text.IsSpace(text[k]))
  }

  /** Turning the newlines of a stripped run into spaces keeps its place and its non-space ends. */
  lemma TidyRun(text: string, s: string, i: int)
    requires Text.StrippedAt(text, s, i)
    requires s == [] || (!Text.IsSpace(s[0]) && !Text.IsSpace(s[|s| - 1]))
    ensures TidiedAt(text, Text.Replace(s, '\n', ' '), i)
    ensures '\n' !in Text.Replace(s, '\n', ' ')
    ensures var r := Text.Replace(s, '\n', ' '); r == [] || (!Text.IsSpace(r[0]) && !Text.IsSpace(r[|r| - 1]))
  {
    var r := Text.Replace(s, '\n', ' ');
    assert r != [] ==> r[0] == s[0] && r[|r| - 1] == s[|s| - 1] by {
      assert Text.IsSpace('\n');
    }
    assert forall k :: 0 <= k < |r| ==> r[k] == NewlineToSpace(text[i + k]) by {
      forall k | 0 <= k < |r| ensures r[k] == NewlineToSpace(text[i + k]) {
        assert s[k] == text[i + k];
      }
    }
  }

  /**
   * `text.strip().replace('\n', ' ')`: the text without its surrounding
   * whitespace and with its inner line breaks turned into spaces.
   */
  function Tidy(text: string): (r: string)
    ensures '\n' !in r
    ensures exists i :: TidiedAt(text, r, i)
    ensures r == [] || (!Text.IsSpace(r[0]) && !Text.IsSpace(r[|r| - 1]))
    ensures r == [] <==> forall k :: 0 <= k < |text| ==> Text.IsSpace(text[k])
  {
    TidyStrip(text);
    Text.Replace(Text.Strip(text), '\n', ' ')
  }

  /** The stripped text with its newlines turned into spaces sits at the index where the stripped run sits. */
  lemma TidyStrip(text: string)
    ensures var r := Text.Replace(Text.Strip(text), '\n', ' ');
      '\n' !in r && (exists i :: TidiedAt(text, r, i)) &&
      (r == [] || (!Text.IsSpace(r[0]) && !Text.IsSpace(r[|r| - 1]))) &&
      (r == [] <==> forall k :: 0 <= k < |text| ==> Text.IsSpace(text[k]))
  {
    var s := Text.Strip(text);
    var i :| Text.StrippedAt(text, s, i);
    TidyRun(text, s, i);
  }

  /**
   * `get_name_of_spac` on the parsed document: the tidied text of the first
   * name-styled paragraph, or `""` where there is none.
   */
  function NameOf(ps: seq<Paragraph>): (name: string)
    ensures '\n' !in name
    ensures name == [] || (!Text.IsSpace(name[0]) && !Text.IsSpace(name[|name| - 1]))
    ensures name == [] <==>
      FirstStyled(ps).None? || forall k :: 0 <= k < |ps[FirstStyled(ps).value].text| ==> Text.IsSpace(ps[FirstStyled(ps).value].text[k])
    ensures FirstStyled(ps).Some? ==> exists i :: TidiedAt(ps[FirstStyled(ps).value].text, name, i)
  {
    match FirstStyled(ps)
    case None => ""
    case Some(j) => Tidy(ps[j].text)
  }

  // ------------------------------------------------------- ticker windows

  /** The four word patterns whose last word, when followed by a token, announces a ticker. */
  const NewTickerSymbols: seq<string> := ["under", "the", "new", "ticker", "symbols"]
  const NewTickerSymbol: seq<string> := ["under", "the", "new", "ticker", "symbol"]
  const TheSymbols: seq<string> := ["under", "the", "symbols"]
  const TheSymbol: seq<string> := ["under", "the", "symbol"]

  /**
   * The words ending at position `i` spell `pattern`: its last word is
   * `words[i]` and the rest of it ends at `i - 1`.
   */
  predicate EndsAt(words: seq<string>, i: int, pattern: seq<string>)
    decreases |pattern|
  {
    pattern == [] ||
    (0 <= i < |words| && words[i] == pattern[|pattern| - 1] && EndsAt(words, i - 1, pattern[..|pattern| - 1]))
  }

  /** Word by word is the same as the slice test `words[i + 1 - len(pattern):i + 1] == pattern`. */
  lemma {:induction false} EndsAtSlice(words: seq<string>, i: int, pattern: seq<string>)
    requires |pattern| <= i + 1 <= |words|
    ensures EndsAt(words, i, pattern) <==> words[i + 1 - |pattern|..i + 1] == pattern
    decreases |pattern|
  {
    if pattern != [] {
      var init := pattern[..|pattern| - 1];
      EndsAtSlice(words, i - 1, init);
      var window := words[i + 1 - |pattern|..i + 1];
      assert window == words[i + 1 - |pattern|..i] + [words[i]];
      if window == pattern {
        assert window[..|pattern| - 1] == init;
      }
    }
  }

  /**
   * Position `i` is one the scan visits (`range(4, len(words) - 1)`) and one
   * of the four patterns ends there.
   */
  predicate Announces(words: seq<string>, i: int)
  {
    4 <= i < |words| - 1 &&
    (EndsAt(words, i, NewTickerSymbols) || EndsAt(words, i, NewTickerSymbol) ||
     EndsAt(words, i, TheSymbols) || EndsAt(words, i, TheSymbol))
  }

  /** Python's `w[1:-1]`: the token without its first and last character; `""` when it has fewer than two. */
  function Unquote(w: string): (r: string)
    ensures |r| == if |w| >= 2 then |w| - 2 else 0
    ensures forall k :: 0 <= k < |r| ==> r[k] == w[k + 1]
  {
    if |w| >= 2 then w[1..|w| - 1] else ""
  }

  /**
   * The candidates the four tests at position `i` append: the patterns
   * exclude one another, so there is at most one, and there is one exactly
   * when the position announces a ticker.
   */
  function CandidatesAt(words: seq<string>, i: nat): (r: seq<string>)
    requires 4 <= i < |words| - 1
    ensures |r| <= 1
    ensures r == [] <==> !Announces(words, i)
    ensures r != [] ==> r[0] == Unquote(words[i + 1])
  {
    PatternsExclusive(words, i);
    var t := [Unquote(words[i + 1])];
    (if EndsAt(words, i, NewTickerSymbols) then t else []) +
    (if EndsAt(words, i, NewTickerSymbol) then t else []) +
    (if EndsAt(words, i, TheSymbols) then t else []) +
    (if EndsAt(words, i, TheSymbol) then t else [])
  }

  /**
   * The long patterns have "new" two words before their end, the short ones
   * "under", and the plural ones end in "symbols": no two match together.
   */
  lemma PatternsExclusive(words: seq<string>, i: nat)
    requires 4 <= i < |words|
    ensures EndsAt(words, i, NewTickerSymbols) ==> words[i - 2] == "new" && words[i] == "symbols"
    ensures EndsAt(words, i, NewTickerSymbol) ==> words[i - 2] == "new" && words[i] == "symbol"
    ensures EndsAt(words, i, TheSymbols) ==> words[i - 2] == "under" && words[i] == "symbols"
    ensures EndsAt(words, i, TheSymbol) ==> words[i - 2] == "under" && words[i] == "symbol"
  {
    WindowTests(words, i);
    var long := words[i - 4..i + 1];
    var short := words[i - 2..i + 1];
    assert long[2] == words[i - 2] && long[4] == words[i];
    assert short[0] == words[i - 2] && short[2] == words[i];
    assert "new" != "under" && "symbols" != "symbol";
  }

  /** The candidates collected from the positions `4 .. hi - 1`, in scan order. */
  function CandidatesBelow(words: seq<string>, hi: nat): seq<string>
    requires hi <= 4 || hi < |words|
  {
    if hi <= 4 then [] else CandidatesBelow(words, hi - 1) + CandidatesAt(words, hi - 1)
  }

  /** The candidates one paragraph's words yield. */
  function WordCandidates(words: seq<string>): seq<string>
  {
    if |words| <= 5 then [] else CandidatesBelow(words, |words| - 1)
  }

  /**
   * A candidate comes from exactly one kind of place: a visited position
   * that ends a pattern, the candidate being the next token unquoted.
   */
  lemma {:induction false} CandidatesBelowSpec(words: seq<string>, hi: nat)
    requires hi <= 4 || hi < |words|
    ensures forall t :: t in CandidatesBelow(words, hi) <==>
      exists i :: 4 <= i < hi && Announces(words, i) && t == Unquote(words[i + 1])
  {
    if hi > 4 {
      CandidatesBelowSpec(words, hi - 1);
      var here := CandidatesAt(words, hi - 1);
      assert CandidatesBelow(words, hi) == CandidatesBelow(words, hi - 1) + here;
      forall t | t in CandidatesBelow(words, hi)
        ensures exists i :: 4 <= i < hi && Announces(words, i) && t == Unquote(words[i + 1])
      {
        if t in here {
          assert Announces(words, hi - 1);
        }
      }
      forall t | exists i :: 4 <= i < hi && Announces(words, i) && t == Unquote(words[i + 1])
        ensures t in CandidatesBelow(words, hi)
      {
        var i :| 4 <= i < hi && Announces(words, i) && t == Unquote(words[i + 1]);
        if i == hi - 1 {
          assert here[0] == t;
          assert t in here;
        } else {
          assert t in CandidatesBelow(words, hi - 1);
        }
      }
    }
  }

  /**
   * Every ticker candidate of a paragraph is the token after a visited
   * position that ends one of the four patterns, first and last character
   * dropped, and every such position yields one.
   */
  lemma WordCandidatesSpec(words: seq<string>)
    ensures forall t :: t in WordCandidates(words) <==>
      exists i :: 4 <= i <= |words| - 2 && Announces(words, i) && t == Unquote(words[i + 1])
  {
    if |words| > 5 {
      CandidatesBelowSpec(words, |words| - 1);
    }
  }

  /** Some pattern ends at position `i` of `words`. */
  predicate EndsPattern(words: seq<string>, i: int)
  {
    EndsAt(words, i, NewTickerSymbols) || EndsAt(words, i, NewTickerSymbol) ||
    EndsAt(words, i, TheSymbols) || EndsAt(words, i, TheSymbol)
  }

  /**
   * Only patterns that end at positions `4 .. len(words) - 2` are read: a
   * paragraph whose patterns all end before position 4, or at its last
   * word, yields no candidate at all, however the patterns are followed.
   */
  lemma EarlyTriggerMissed(words: seq<string>)
    requires forall i :: 0 <= i < |words| && EndsPattern(words, i) ==> i < 4 || i == |words| - 1
    ensures WordCandidates(words) == []
  {
    forall i | 4 <= i <= |words| - 2 ensures !Announces(words, i) {
      assert !EndsPattern(words, i);
    }
    if |words| > 5 {
      CandidatesBelowEmpty(words, |words| - 1);
    }
  }

  /** Positions that announce nothing contribute nothing. */
  lemma {:induction false} CandidatesBelowEmpty(words: seq<string>, hi: nat)
    requires hi <= 4 || hi < |words|
    requires forall i :: 4 <= i < hi ==> !Announces(words, i)
    ensures CandidatesBelow(words, hi) == []
  {
    if hi > 4 {
      CandidatesBelowEmpty(words, hi - 1);
    }
  }

  /** For example: "under the symbol" ending at position 3 is not read, though a quoted token follows it. */
  lemma EarlyTriggerExample()
    ensures WordCandidates(["Listed", "under", "the", "symbol", "\"ABC\"", "today"]) == []
  {
    var words := ["Listed", "under", "the", "symbol", "\"ABC\"", "today"];
    WindowTests(words, 4);
    assert words[0..5][0] == "Listed" != "under";
    assert words[2..5][0] == "the" != "under";
  }

  /** The usual phrasing: the quoted token after "under the symbol" is read without its quotes. */
  lemma QuotedSymbolRead()
    ensures WordCandidates(["Our", "units", "trade", "under", "the", "symbol", "\"ABCU\"", "today"]) == ["ABCU"]
  {
    var words := ["Our", "units", "trade", "under", "the", "symbol", "\"ABCU\"", "today"];
    WindowTests(words, 4);
    WindowTests(words, 5);
    WindowTests(words, 6);
    assert words[0..5][0] == "Our" != "under";
    assert words[2..5][0] == "trade" != "under";
    assert words[1..6][0] == "units" != "under";
    assert words[3..6] == TheSymbol;
    assert words[2..7][0] == "trade" != "under";
    assert words[4..7][0] == "the" != "under";
    assert Unquote(words[6]) == "ABCU";
    assert CandidatesBelow(words, 5) == [];
    assert CandidatesBelow(words, 6) == ["ABCU"];
  }

  // ---------------------------------------------------------- paragraphs

  const SymbolPhrase: string := "under the symbol"
  const NewTickerPhrase: string := "under the new ticker symbol"

  /** `findAll('p', string=re.compile(phrase))` tests the paragraph's `.string`. */
  predicate Mentions(p: Paragraph, phrase: string)
  {
    p.str.Some? && Text.Contains(phrase, p.str.value)
  }

  /** The paragraphs whose `.string` contains `phrase`, in document order. */
  function Mentioning(ps: seq<Paragraph>, phrase: string): (r: seq<Paragraph>)
    ensures |r| <= |ps|
  {
    if ps == [] then []
    else (if Mentions(ps[0], phrase) then [ps[0]] else []) + Mentioning(ps[1..], phrase)
  }

  /** `findAll` keeps exactly the paragraphs that mention the phrase. */
  lemma {:induction false} MentioningMembers(ps: seq<Paragraph>, phrase: string)
    ensures forall q :: q in Mentioning(ps, phrase) <==> q in ps && Mentions(q, phrase)
  {
    if ps != [] {
      MentioningMembers(ps[1..], phrase);
      assert ps == [ps[0]] + ps[1..];
    }
  }

  /**
   * `findAll` keeps document order and takes each paragraph once: filtering
   * works piece by piece, and one paragraph is kept exactly when it
   * mentions the phrase.
   */
  lemma {:induction false} MentioningConcat(a: seq<Paragraph>, b: seq<Paragraph>, phrase: string)
    ensures Mentioning(a + b, phrase) == Mentioning(a, phrase) + Mentioning(b, phrase)
    ensures forall p :: Mentioning([p], phrase) == if Mentions(p, phrase) then [p] else []
  {
    if a == [] {
      assert a + b == b;
    } else {
      MentioningConcat(a[1..], b, phrase);
      MentioningConcatStep(a, b, phrase);
    }
    forall p ensures Mentioning([p], phrase) == if Mentions(p, phrase) then [p] else [] {
      assert [p][1..] == [];
    }
  }

  /** The step of `MentioningConcat`: one more paragraph in front of `a`. */
  lemma MentioningConcatStep(a: seq<Paragraph>, b: seq<Paragraph>, phrase: string)
    requires a != []
    requires Mentioning(a[1..] + b, phrase) == Mentioning(a[1..], phrase) + Mentioning(b, phrase)
    ensures Mentioning(a + b, phrase) == Mentioning(a, phrase) + Mentioning(b, phrase)
  {
    var ab := a + b;
    assert ab[0] == a[0] && ab[1..] == a[1..] + b;
    var head := if Mentions(a[0], phrase) then [a[0]] else [];
    assert Mentioning(a, phrase) == head + Mentioning(a[1..], phrase);
    assert Mentioning(ab, phrase) == head + Mentioning(a[1..] + b, phrase);
    Regroup(head, Mentioning(a[1..], phrase), Mentioning(b, phrase));
  }

  lemma Regroup<T>(h: seq<T>, x: seq<T>, y: seq<T>)
    ensures h + (x + y) == (h + x) + y
  {
  }

  /** The elements the scan visits: those naming the symbol, then those naming the new ticker symbol. */
  function Elements(ps: seq<Paragraph>): seq<Paragraph>
  {
    Mentioning(ps, SymbolPhrase) + Mentioning(ps, NewTickerPhrase)
  }

  function ParagraphCandidates(p: Paragraph): seq<string>
  {
    WordCandidates(Text.Words(p.text))
  }

  /** The lists `f` yields for each of `es`, concatenated in order. */
  function Collect<X>(es: seq<X>, f: X -> seq<string>): seq<string>
  {
    if es == [] then [] else Collect(es[..|es| - 1], f) + f(es[|es| - 1])
  }

  lemma {:induction false} CollectSpec<X>(es: seq<X>, f: X -> seq<string>)
    ensures forall t :: t in Collect(es, f) <==> exists j :: 0 <= j < |es| && t in f(es[j])
  {
    if es != [] {
      var init := es[..|es| - 1];
      var last := es[|es| - 1];
      CollectSpec(init, f);
      assert Collect(es, f) == Collect(init, f) + f(last);
      forall t | t in Collect(es, f)
        ensures exists j :: 0 <= j < |es| && t in f(es[j])
      {
        if t in Collect(init, f) {
          var j :| 0 <= j < |init| && t in f(init[j]);
          assert init[j] == es[j];
        }
      }
      forall t | exists j :: 0 <= j < |es| && t in f(es[j])
        ensures t in Collect(es, f)
      {
        var j :| 0 <= j < |es| && t in f(es[j]);
        if j < |init| {
          assert init[j] == es[j];
        }
      }
    }
  }

  /** The `tickers` list after the scan of `es`, before it is sorted. */
  function AllCandidates(es: seq<Paragraph>): seq<string>
  {
    Collect(es, ParagraphCandidates)
  }

  // ---------------------------------------------------------------- sort

  /** Puts `x` before the first element at least as long: stable for a list whose elements came after `x`. */
  function InsertByLength(x: string, s: seq<string>): (r: seq<string>)
    ensures |r| == |s| + 1
  {
    if s == [] || |x| <= |s[0]| then [x] + s
    else [s[0]] + InsertByLength(x, s[1..])
  }

  /** `sorted(xs, key=len)`: a stable sort by length. */
  function SortByLength(xs: seq<string>): (r: seq<string>)
    ensures |r| == |xs|
  {
    if xs == [] then [] else InsertByLength(xs[0], SortByLength(xs[1..]))
  }

  lemma {:induction false} InsertPermutes(x: string, s: seq<string>)
    ensures multiset(InsertByLength(x, s)) == multiset(s) + multiset{x}
  {
    if s != [] && |x| > |s[0]| {
      InsertPermutes(x, s[1..]);
      assert s == [s[0]] + s[1..];
    }
  }

  /** The sort rearranges its input: same elements, same number of times each. */
  lemma {:induction false} SortByLengthPermutes(xs: seq<string>)
    ensures multiset(SortByLength(xs)) == multiset(xs)
  {
    if xs != [] {
      SortByLengthPermutes(xs[1..]);
      InsertPermutes(xs[0], SortByLength(xs[1..]));
      assert xs == [xs[0]] + xs[1..];
    }
  }

  lemma {:induction false} InsertMembers(x: string, s: seq<string>)
    ensures forall y :: y in InsertByLength(x, s) <==> y == x || y in s
  {
    if s != [] && |x| > |s[0]| {
      InsertMembers(x, s[1..]);
      assert s == [s[0]] + s[1..];
    }
  }

  lemma {:induction false} SortMembers(xs: seq<string>)
    ensures forall y :: y in SortByLength(xs) <==> y in xs
  {
    if xs != [] {
      SortMembers(xs[1..]);
      InsertMembers(xs[0], SortByLength(xs[1..]));
      assert xs == [xs[0]] + xs[1..];
    }
  }

  predicate SortedByLength(s: seq<string>)
  {
    forall a, b :: 0 <= a < b < |s| ==> |s[a]| <= |s[b]|
  }

  /** No element of `s` is shorter than `m`. */
  predicate AtLeast(s: seq<string>, m: nat)
  {
    forall k :: 0 <= k < |s| ==> m <= |s[k]|
  }

  lemma {:induction false} InsertAtLeast(x: string, s: seq<string>, m: nat)
    requires AtLeast(s, m) && m <= |x|
    ensures AtLeast(InsertByLength(x, s), m)
  {
    if s != [] && |x| > |s[0]| {
      InsertAtLeast(x, s[1..], m);
    }
  }

  lemma {:induction false} InsertSorted(x: string, s: seq<string>)
    requires SortedByLength(s)
    ensures SortedByLength(InsertByLength(x, s))
    ensures InsertByLength(x, s)[0] == (if s == [] || |x| <= |s[0]| then x else s[0])
  {
    if s != [] && |x| > |s[0]| {
      var tail := InsertByLength(x, s[1..]);
      InsertSorted(x, s[1..]);
      InsertAtLeast(x, s[1..], |s[0]|);
      var r := [s[0]] + tail;
      forall a, b | 0 <= a < b < |r| ensures |r[a]| <= |r[b]| {
        if a > 0 {
          assert r[a] == tail[a - 1] && r[b] == tail[b - 1];
        }
      }
    } else {
      var r := [x] + s;
      forall a, b | 0 <= a < b < |r| ensures |r[a]| <= |r[b]| {
        if a > 0 {
          assert r[a] == s[a - 1] && r[b] == s[b - 1];
        } else {
          assert r[b] == s[b - 1];
        }
      }
    }
  }

  /** The sort orders its output by length. */
  lemma {:induction false} SortByLengthSorted(xs: seq<string>)
    ensures SortedByLength(SortByLength(xs))
  {
    if xs != [] {
      SortByLengthSorted(xs[1..]);
      InsertSorted(xs[0], SortByLength(xs[1..]));
    }
  }

  /** The elements of `xs` of length `n`, in their order in `xs`. */
  function OfLength(xs: seq<string>, n: nat): (r: seq<string>)
    ensures |r| <= |xs|
    ensures forall k :: 0 <= k < |r| ==> |r[k]| == n
  {
    if xs == [] then [] else (if |xs[0]| == n then [xs[0]] else []) + OfLength(xs[1..], n)
  }

  /** Inserting `x` puts it before every element of its length that it is inserted into. */
  lemma {:induction false} InsertOfLength(x: string, s: seq<string>, n: nat)
    ensures OfLength(InsertByLength(x, s), n) == (if |x| == n then [x] else []) + OfLength(s, n)
  {
    if s == [] || |x| <= |s[0]| {
      assert ([x] + s)[1..] == s;
    } else {
      var r := InsertByLength(x, s[1..]);
      InsertOfLength(x, s[1..], n);
      assert ([s[0]] + r)[1..] == r;
    }
  }

  /**
   * Stability: the sort keeps, for every length, the elements of that length
   * in their input order. With `SortByLengthSorted` this fixes the output.
   */
  lemma {:induction false} SortByLengthStable(xs: seq<string>, n: nat)
    ensures OfLength(SortByLength(xs), n) == OfLength(xs, n)
  {
    if xs != [] {
      SortByLengthStable(xs[1..], n);
      InsertOfLength(xs[0], SortByLength(xs[1..]), n);
    }
  }

  /** `xs[i]` is the first element of `xs` of least length. */
  predicate FirstShortestAt(xs: seq<string>, i: int)
  {
    0 <= i < |xs| &&
    (forall j :: 0 <= j < |xs| ==> |xs[i]| <= |xs[j]|) &&
    (forall j :: 0 <= j < i ==> |xs[i]| < |xs[j]|)
  }

  /** Stability at the head: the sort puts first the earliest of the shortest elements. */
  lemma {:induction false} SortByLengthHead(xs: seq<string>)
    requires xs != []
    ensures exists i :: FirstShortestAt(xs, i) && xs[i] == SortByLength(xs)[0]
  {
    var rest := SortByLength(xs[1..]);
    SortByLengthSorted(xs[1..]);
    InsertSorted(xs[0], rest);
    if rest == [] || |xs[0]| <= |rest[0]| {
      SortMembers(xs[1..]);
      forall j | 1 <= j < |xs| ensures |xs[0]| <= |xs[j]| {
        assert xs[j] == xs[1..][j - 1];
        assert xs[j] in xs[1..];
        assert xs[j] in rest;
        var b :| 0 <= b < |rest| && rest[b] == xs[j];
        assert b == 0 || |rest[0]| <= |rest[b]|;
      }
      assert FirstShortestAt(xs, 0);
    } else {
      SortByLengthHead(xs[1..]);
      var i :| FirstShortestAt(xs[1..], i) && xs[1..][i] == rest[0];
      forall j | 1 <= j < |xs| ensures |xs[i + 1]| <= |xs[j]| {
        assert xs[j] == xs[1..][j - 1];
      }
      forall j | 1 <= j < i + 1 ensures |xs[i + 1]| < |xs[j]| {
        assert xs[j] == xs[1..][j - 1];
      }
      assert FirstShortestAt(xs, i + 1);
    }
  }

  /** `tickers[0] if tickers else ''` after the sort. */
  function Shortest(cands: seq<string>): string
  {
    if cands == [] then "" else SortByLength(cands)[0]
  }

  /**
   * The ticker is the first candidate of least length, `""` when there is
   * none, and `""` whenever some candidate is empty.
   */
  lemma ShortestSpec(cands: seq<string>)
    ensures cands == [] ==> Shortest(cands) == ""
    ensures cands != [] ==> exists i :: FirstShortestAt(cands, i) && cands[i] == Shortest(cands)
    ensures "" in cands ==> Shortest(cands) == ""
  {
    if cands != [] {
      SortByLengthHead(cands);
      if "" in cands {
        var i :| FirstShortestAt(cands, i) && cands[i] == Shortest(cands);
        var z :| 0 <= z < |cands| && cands[z] == "";
        assert |cands[i]| <= |cands[z]|;
      }
    }
  }

  // -------------------------------------------------------------- ticker

  /** What `get_ticker_of_spac` returns for the parsed document. */
  function TickerSpec(ps: seq<Paragraph>): string
  {
    Shortest(AllCandidates(Elements(ps)))
  }

  /**
   * A non-empty ticker is announced in one of the scanned paragraphs: a
   * visited position ends one of the four patterns and the ticker is the
   * next token unquoted.
   */
  lemma TickerIsAnnounced(ps: seq<Paragraph>)
    ensures TickerSpec(ps) != "" ==> exists p, i ::
      p in Elements(ps) && Announces(Text.Words(p.text), i) && TickerSpec(ps) == Unquote(Text.Words(p.text)[i + 1])
  {
    var es := Elements(ps);
    var cands := AllCandidates(es);
    ShortestSpec(cands);
    if TickerSpec(ps) != "" {
      var t := TickerSpec(ps);
      var i :| FirstShortestAt(cands, i) && cands[i] == t;
      CollectSpec(es, ParagraphCandidates);
      assert t in cands;
      var j :| 0 <= j < |es| && t in ParagraphCandidates(es[j]);
      var words := Text.Words(es[j].text);
      WordCandidatesSpec(words);
      var k :| 4 <= k <= |words| - 2 && Announces(words, k) && t == Unquote(words[k + 1]);
      assert es[j] in es;
    }
  }

  /**
   * A token of one character or none after a pattern yields the candidate
   * `""`, which then wins as the shortest.
   */
  lemma ShortTokenBlanksTicker(ps: seq<Paragraph>, p: Paragraph, i: nat)
    requires p in Elements(ps)
    requires Announces(Text.Words(p.text), i) && |Text.Words(p.text)[i + 1]| < 2
    ensures TickerSpec(ps) == ""
  {
    var es := Elements(ps);
    var words := Text.Words(p.text);
    WordCandidatesSpec(words);
    assert "" in ParagraphCandidates(p);
    CollectSpec(es, ParagraphCandidates);
    var j :| 0 <= j < |es| && es[j] == p;
    assert "" in AllCandidates(es);
    ShortestSpec(AllCandidates(es));
  }

  /** The slice tests the scan writes are the pattern tests `CandidatesAt` makes. */
  lemma WindowTests(words: seq<string>, i: nat)
    requires 4 <= i < |words|
    ensures words[i - 4..i + 1] == NewTickerSymbols <==> EndsAt(words, i, NewTickerSymbols)
    ensures words[i - 4..i + 1] == NewTickerSymbol <==> EndsAt(words, i, NewTickerSymbol)
    ensures words[i - 2..i + 1] == TheSymbols <==> EndsAt(words, i, TheSymbols)
    ensures words[i - 2..i + 1] == TheSymbol <==> EndsAt(words, i, TheSymbol)
  {
    EndsAtSlice(words, i, NewTickerSymbols);
    EndsAtSlice(words, i, NewTickerSymbol);
    EndsAtSlice(words, i, TheSymbols);
    EndsAtSlice(words, i, TheSymbol);
  }

  /** The four tests of the inner loop's body at position `i`, appending to `hits`. */
  method TestsAt(words: seq<string>, i: nat) returns (hits: seq<string>)
    requires 4 <= i < |words| - 1
    ensures hits == CandidatesAt(words, i)
  {
    WindowTests(words, i);
    hits := [];
    if words[i - 4..i + 1] == NewTickerSymbols {
      hits := hits + [Unquote(words[i + 1])];
    }
    if words[i - 4..i + 1] == NewTickerSymbol {
      hits := hits + [Unquote(words[i + 1])];
    }
    if words[i - 2..i + 1] == TheSymbols {
      hits := hits + [Unquote(words[i + 1])];
    }
    if words[i - 2..i + 1] == TheSymbol {
      hits := hits + [Unquote(words[i + 1])];
    }
  }

  /**
   * The inner loop of `get_ticker_of_spac`: visits `range(4, len(words) - 1)`
   * and appends the next token, unquoted, wherever one of the four patterns
   * ends.
   */
  method ScanWords(words: seq<string>) returns (found: seq<string>)
    ensures found == WordCandidates(words)
  {
    found := [];
    var i := 4;
    while i < |words| - 1
      invariant 4 <= i && (i == 4 || i < |words|)
      invariant found == CandidatesBelow(words, i)
    {
      var hits := TestsAt(words, i);
      found := found + hits;
      i := i + 1;
    }
  }

  /**
   * `get_ticker_of_spac` on the parsed document: scans every selected
   * element's words, collects the candidates, sorts them by length and
   * returns the first.
   */
  method TickerOf(ps: seq<Paragraph>) returns (ticker: string)
    ensures ticker == TickerSpec(ps)
  {
    var elements := Elements(ps);
    var tickers: seq<string> := [];
    var e := 0;
    while e < |elements|
      invariant e <= |elements|
      invariant tickers == AllCandidates(elements[..e])
    {
      var found := ScanWords(Text.Words(elements[e].text));
      tickers := tickers + found;
      assert elements[..e + 1][..e] == elements[..e];
      e := e + 1;
    }
    assert elements[..e] == elements;
    tickers := SortByLength(tickers);
    ticker := if |tickers| > 0 then tickers[0] else "";
  }
}
