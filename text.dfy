/**
 * The Python string and bytes operations the scraper relies on, over
 * sequences: `in` on str and bytes, `str.split(sep)`, `str.split()`,
 * `str.strip()`, `str.replace(a, b)` for a single character, and the join
 * that inverts a split.
 */
module Text {

  // ---------------------------------------------------------------------
  // Containment: `needle in hay` for str and bytes

  /** `needle` sits in `hay` at index `i`. */
  predicate OccursAt<T(==)>(needle: seq<T>, hay: seq<T>, i: int)
  {
    0 <= i && i + |needle| <= |hay| && hay[i..i + |needle|] == needle
  }

  /** `needle` is a contiguous run of `hay`. */
  ghost predicate IsInfix<T>(needle: seq<T>, hay: seq<T>)
  {
    exists i :: OccursAt(needle, hay, i)
  }

  lemma {:induction false} InfixOfTail<T>(needle: seq<T>, hay: seq<T>)
    requires |needle| <= |hay| && hay[..|needle|] != needle
    ensures IsInfix(needle, hay) <==> IsInfix(needle, hay[1..])
  {
    if IsInfix(needle, hay) {
      var i :| OccursAt(needle, hay, i);
      assert i != 0;
      assert hay[1..][i - 1..i - 1 + |needle|] == hay[i..i + |needle|];
      assert OccursAt(needle, hay[1..], i - 1);
    }
    if IsInfix(needle, hay[1..]) {
      var i :| OccursAt(needle, hay[1..], i);
      assert hay[1..][i..i + |needle|] == hay[i + 1..i + 1 + |needle|];
      assert OccursAt(needle, hay, i + 1);
    }
  }

  /** Python's `needle in hay`: true exactly when `needle` occurs in `hay`. */
  function Contains<T(==)>(needle: seq<T>, hay: seq<T>): (b: bool)
    ensures b <==> IsInfix(needle, hay)
    ensures b ==> |needle| <= |hay|
    decreases |hay|
  {
    if |hay| < |needle| then
      assert forall i :: !OccursAt(needle, hay, i);
      false
    else if hay[..|needle|] == needle then
      assert OccursAt(needle, hay, 0);
      true
    else
      InfixOfTail(needle, hay);
      Contains(needle, hay[1..])
  }

  // ---------------------------------------------------------------------
  // `sep.join(parts)` and `s.split(sep)` for a one-character separator

  function Join(parts: seq<string>, sep: char): string
  {
    if |parts| == 0 then ""
    else if |parts| == 1 then parts[0]
    else parts[0] + [sep] + Join(parts[1..], sep)
  }

  /**
   * Python's `s.split(sep)`: never empty, no part holds the separator, and
   * joining the parts back with the separator gives `s`.
   */
  function Split(s: string, sep: char): (parts: seq<string>)
    ensures |parts| >= 1
    ensures forall i :: 0 <= i < |parts| ==> sep !in parts[i]
    ensures Join(parts, sep) == s
  {
    if s == [] then [""]
    else
      var rest := Split(s[1..], sep);
      if s[0] == sep then
        assert ([""] + rest)[1..] == rest;
        [""] + rest
      else
        var parts := [[s[0]] + rest[0]] + rest[1..];
        assert parts[1..] == rest[1..];
        parts
  }

  lemma {:induction false} SplitWithoutSep(p: string, sep: char)
    requires sep !in p
    ensures Split(p, sep) == [p]
  {
    if p != [] {
      SplitWithoutSep(p[1..], sep);
    }
  }

  lemma {:induction false} SplitAtFirstSep(p: string, sep: char, rest: string)
    requires sep !in p
    ensures Split(p + [sep] + rest, sep) == [p] + Split(rest, sep)
  {
    if p == [] {
      assert (p + [sep] + rest)[1..] == rest;
    } else {
      var s := p + [sep] + rest;
      assert s[0] == p[0] && s[0] != sep;
      assert s[1..] == p[1..] + [sep] + rest;
      SplitAtFirstSep(p[1..], sep, rest);
      var r := Split(s[1..], sep);
      assert r[0] == p[1..] && r[1..] == Split(rest, sep);
      assert [p[0]] + p[1..] == p;
    }
  }

  /** Joining two non-empty lists of parts puts one separator between them. */
  lemma {:induction false} JoinAppend(a: seq<string>, b: seq<string>, sep: char)
    requires |a| >= 1 && |b| >= 1
    ensures Join(a + b, sep) == Join(a, sep) + [sep] + Join(b, sep)
  {
    if |a| == 1 {
      assert (a + b)[1..] == b;
    } else {
      JoinAppend(a[1..], b, sep);
      assert (a + b)[1..] == a[1..] + b;
    }
  }

  /** Splitting undoes joining, when no part holds the separator. */
  lemma {:induction false} SplitJoin(parts: seq<string>, sep: char)
    requires |parts| >= 1
    requires forall i :: 0 <= i < |parts| ==> sep !in parts[i]
    ensures Split(Join(parts, sep), sep) == parts
  {
    if |parts| == 1 {
      SplitWithoutSep(parts[0], sep);
    } else {
      SplitJoin(parts[1..], sep);
      SplitAtFirstSep(parts[0], sep, Join(parts[1..], sep));
    }
  }

  /**
   * Splitting a join gives back its first `k` parts unchanged when they hold
   * no separator, whatever the later parts hold.
   */
  lemma {:induction false} SplitJoinPrefix(parts: seq<string>, k: nat, sep: char)
    requires k < |parts|
    requires forall i :: 0 <= i < k ==> sep !in parts[i]
    ensures Split(Join(parts, sep), sep) == parts[..k] + Split(Join(parts[k..], sep), sep)
  {
    if k > 0 {
      var tail := parts[1..];
      var later := Split(Join(parts[k..], sep), sep);
      SplitJoinPrefix(tail, k - 1, sep);
      assert tail[k - 1..] == parts[k..];
      assert Join(parts, sep) == parts[0] + [sep] + Join(tail, sep);
      SplitAtFirstSep(parts[0], sep, Join(tail, sep));
      calc {
        Split(Join(parts, sep), sep);
        [parts[0]] + Split(Join(tail, sep), sep);
        [parts[0]] + (tail[..k - 1] + later);
        { assert parts[..k] == [parts[0]] + tail[..k - 1]; }
        parts[..k] + later;
      }
    }
  }

  // ---------------------------------------------------------------------
  // Whitespace: `str.isspace()` on one character, `str.strip()`, `str.split()`

  /**
   * The characters Python's `str.isspace()` accepts: the ASCII controls
   * TAB to CR and FS to SPACE, NEL, NBSP, the Ogham space mark, the
   * spaces U+2000 to U+200A, the line and paragraph separators, the
   * narrow no-break space, the medium mathematical space and the
   * ideographic space.
   */
  predicate IsSpace(c: char)
  {
    ('\t' <= c <= '\r') || ('\U{1c}' <= c <= ' ') || c == '\U{85}' || c == '\U{a0}' ||
    c == '\U{1680}' || ('\U{2000}' <= c <= '\U{200a}') || c == '\U{2028}' || c == '\U{2029}' ||
    c == '\U{202f}' || c == '\U{205f}' || c == '\U{3000}'
  }

  /** The number of whitespace characters `s` starts with. */
  function SpaceRun(s: string): (n: nat)
    ensures n <= |s|
    ensures n < |s| ==> !IsSpace(s[n])
  {
    if s != [] && IsSpace(s[0]) then 1 + SpaceRun(s[1..]) else 0
  }

  lemma {:induction false} SpaceRunIsSpace(s: string)
    ensures forall k :: 0 <= k < SpaceRun(s) ==> IsSpace(s[k])
  {
    if s != [] && IsSpace(s[0]) {
      SpaceRunIsSpace(s[1..]);
    }
  }

  /** The number of whitespace characters `s` ends with. */
  function TrailingSpaceRun(s: string): (n: nat)
    ensures n <= |s|
    ensures n < |s| ==> !IsSpace(s[|s| - 1 - n])
  {
    if s != [] && IsSpace(s[|s| - 1]) then 1 + TrailingSpaceRun(s[..|s| - 1]) else 0
  }

  lemma {:induction false} TrailingSpaceRunIsSpace(s: string)
    ensures forall k :: |s| - TrailingSpaceRun(s) <= k < |s| ==> IsSpace(s[k])
  {
    if s != [] && IsSpace(s[|s| - 1]) {
      TrailingSpaceRunIsSpace(s[..|s| - 1]);
    }
  }

  /** The number of non-whitespace characters `s` starts with. */
  function WordRun(s: string): (n: nat)
    ensures n <= |s|
    ensures n < |s| ==> IsSpace(s[n])
    ensures s != [] && !IsSpace(s[0]) ==> n > 0
  {
    if s != [] && !IsSpace(s[0]) then 1 + WordRun(s[1..]) else 0
  }

  lemma {:induction false} WordRunNoSpace(s: string)
    ensures forall k :: 0 <= k < WordRun(s) ==> !IsSpace(s[k])
  {
    if s != [] && !IsSpace(s[0]) {
      WordRunNoSpace(s[1..]);
    }
  }

  /** `r` is `s[i..i + |r|]` and everything around it is whitespace. */
  predicate StrippedAt(s: string, r: string, i: int)
  {
    0 <= i && i + |r| <= |s| && r == s[i..i + |r|] &&
    (forall k :: 0 <= k < i ==> IsSpace(s[k])) &&
    (forall k :: i + |r| <= k < |s| ==> IsSpace(s[k]))
  }

  /**
   * Python's `s.strip()`: the run of `s` left after removing whitespace at
   * both ends; it is empty exactly when `s` is all whitespace.
   */
  function Strip(s: string): (r: string)
    ensures exists i :: StrippedAt(s, r, i)
    ensures r == [] || (!IsSpace(r[0]) && !IsSpace(r[|r| - 1]))
    ensures r == [] <==> forall k :: 0 <= k < |s| ==> IsSpace(s[k])
  {
    var i := SpaceRun(s);
    var t := s[i..];
    var r := t[..|t| - TrailingSpaceRun(t)];
    StripRun(s, i, t, r);
    r
  }

  lemma StripRun(s: string, i: nat, t: string, r: string)
    requires i == SpaceRun(s) && t == s[i..] && r == t[..|t| - TrailingSpaceRun(t)]
    ensures StrippedAt(s, r, i)
    ensures r == [] || (!IsSpace(r[0]) && !IsSpace(r[|r| - 1]))
    ensures r == [] <==> forall k :: 0 <= k < |s| ==> IsSpace(s[k])
  {
    StripRunAround(s, i, t, r);
    if r != [] {
      assert r[0] == s[i];
      assert r[|r| - 1] == t[|t| - 1 - TrailingSpaceRun(t)];
    }
    StrippedEmpty(s, r, i);
  }

  lemma StripRunAround(s: string, i: nat, t: string, r: string)
    requires i == SpaceRun(s) && t == s[i..] && r == t[..|t| - TrailingSpaceRun(t)]
    ensures StrippedAt(s, r, i)
  {
    SpaceRunIsSpace(s);
    var m := |t| - TrailingSpaceRun(t);
    assert |r| == m;
    TrailingSpaceAfter(s, i, t, m);
    assert r == s[i..i + m];
  }

  /** What follows the cut `m` of the tail `t == s[i..]` is whitespace in `s` too. */
  lemma TrailingSpaceAfter(s: string, i: nat, t: string, m: nat)
    requires i <= |s| && t == s[i..] && m == |t| - TrailingSpaceRun(t)
    ensures forall k :: i + m <= k < |s| ==> IsSpace(s[k])
  {
    TrailingSpaceRunIsSpace(t);
    forall k | i + m <= k < |s| ensures IsSpace(s[k]) {
      assert s[k] == t[k - i];
    }
  }

  /** A stripped run that does not start with whitespace is empty just when all of `s` is. */
  lemma StrippedEmpty(s: string, r: string, i: int)
    requires StrippedAt(s, r, i)
    requires r == [] || !IsSpace(r[0])
    ensures r == [] <==> forall k :: 0 <= k < |s| ==> IsSpace(s[k])
  {
    if r != [] {
      assert s[i] == r[0];
    }
  }

  /** A token of `str.split()`: non-empty and free of whitespace. */
  predicate IsWord(w: string)
  {
    w != [] && forall k :: 0 <= k < |w| ==> !IsSpace(w[k])
  }

  /** Python's `s.split()` with no argument: the maximal whitespace-free runs, in order. */
  function Words(s: string): seq<string>
    decreases |s|
  {
    if s == [] then []
    else if IsSpace(s[0]) then Words(s[1..])
    else
      var n := WordRun(s);
      [s[..n]] + Words(s[n..])
  }

  /** Every token of `str.split()` is non-empty and holds no whitespace. */
  lemma {:induction false} WordsAreWords(s: string)
    ensures forall j :: 0 <= j < |Words(s)| ==> IsWord(Words(s)[j])
    decreases |s|
  {
    if s == [] {
    } else if IsSpace(s[0]) {
      WordsAreWords(s[1..]);
    } else {
      var n := WordRun(s);
      LeadingWordIsWord(s);
      WordsAreWords(s[n..]);
      AllWordsCons(s[..n], Words(s[n..]));
    }
  }

  lemma LeadingWordIsWord(t: string)
    requires t != [] && !IsSpace(t[0])
    ensures IsWord(t[..WordRun(t)])
  {
    WordRunNoSpace(t);
  }

  lemma AllWordsCons(w: string, ws: seq<string>)
    requires IsWord(w)
    requires forall j :: 0 <= j < |ws| ==> IsWord(ws[j])
    ensures forall j :: 0 <= j < |[w] + ws| ==> IsWord(([w] + ws)[j])
  {
    forall j | 0 <= j < |[w] + ws| ensures IsWord(([w] + ws)[j]) {
      if j > 0 {
        assert ([w] + ws)[j] == ws[j - 1];
      }
    }
  }

  lemma {:induction false} WordRunOfWord(w: string, rest: string)
    requires forall k :: 0 <= k < |w| ==> !IsSpace(w[k])
    requires rest == [] || IsSpace(rest[0])
    ensures WordRun(w + rest) == |w|
  {
    if w == [] {
      assert w + rest == rest;
    } else {
      WordRunOfWord(w[1..], rest);
      assert (w + rest)[0] == w[0];
      assert (w + rest)[1..] == w[1..] + rest;
    }
  }

  /** A leading token followed by whitespace or nothing is the first word. */
  lemma {:induction false} WordsCons(w: string, rest: string)
    requires IsWord(w)
    requires rest == [] || IsSpace(rest[0])
    ensures Words(w + rest) == [w] + Words(rest)
  {
    var s := w + rest;
    assert s[0] == w[0];
    WordRunOfWord(w, rest);
    assert s[..|w|] == w;
    assert s[|w|..] == rest;
  }

  /** A single whitespace-free token splits into itself. */
  lemma WordsOfWord(w: string)
    requires IsWord(w)
    ensures Words(w) == [w]
  {
    WordsCons(w, "");
    assert w + "" == w;
  }

  /**
   * `str.split()` cuts at every whitespace character: the tokens around it
   * are those of each side, so runs of whitespace, line breaks and leading
   * or trailing whitespace produce no tokens of their own.
   */
  lemma WordsAtSpace(a: string, c: char, b: string)
    requires IsSpace(c)
    ensures Words(a + [c] + b) == Words(a) + Words(b)
  {
    WordsBeforeSpace(a, [c] + b);
    assert a + [c] + b == a + ([c] + b);
    assert ([c] + b)[1..] == b;
  }

  /** The general form of `WordsAtSpace`: `r` starts with whitespace. */
  lemma {:induction false} WordsBeforeSpace(a: string, r: string)
    requires r != [] && IsSpace(r[0])
    ensures Words(a + r) == Words(a) + Words(r)
    decreases |a|
  {
    if a == [] {
      assert a + r == r;
    } else if IsSpace(a[0]) {
      WordsBeforeSpace(a[1..], r);
      WordsAtSpaceSkip(a, r);
    } else if WordRun(a) == |a| {
      WordsAtSpaceWhole(a, r);
    } else {
      WordsBeforeSpace(a[WordRun(a)..], r);
      WordsAtSpaceLead(a, r);
    }
  }

  /** The step of `WordsBeforeSpace` past a leading whitespace character. */
  lemma WordsAtSpaceSkip(a: string, r: string)
    requires a != [] && IsSpace(a[0])
    requires Words(a[1..] + r) == Words(a[1..]) + Words(r)
    ensures Words(a + r) == Words(a) + Words(r)
  {
    var s := a + r;
    assert s[0] == a[0];
    assert s[1..] == a[1..] + r;
  }

  /** `WordsBeforeSpace` when `a` is one whole token. */
  lemma WordsAtSpaceWhole(a: string, r: string)
    requires r != [] && IsSpace(r[0])
    requires a != [] && !IsSpace(a[0]) && WordRun(a) == |a|
    ensures Words(a + r) == Words(a) + Words(r)
  {
    WordRunNoSpace(a);
    WordsOfWord(a);
    WordsCons(a, r);
  }

  /** The step of `WordsBeforeSpace` past the leading token of `a`, when whitespace follows it inside `a`. */
  lemma WordsAtSpaceLead(a: string, r: string)
    requires a != [] && !IsSpace(a[0]) && WordRun(a) < |a|
    requires Words(a[WordRun(a)..] + r) == Words(a[WordRun(a)..]) + Words(r)
    ensures Words(a + r) == Words(a) + Words(r)
  {
    var m := WordRun(a);
    var s := a + r;
    CutBefore(a, r, m);
    WordRunPrefix(a, s);
    WordsLead(s);
    WordsLead(a);
    calc {
      Words(s);
      [a[..m]] + Words(a[m..] + r);
      [a[..m]] + (Words(a[m..]) + Words(r));
      ([a[..m]] + Words(a[m..])) + Words(r);
    }
  }

  /** `str.split()` on text that starts with a token. */
  lemma WordsLead(s: string)
    requires s != [] && !IsSpace(s[0])
    ensures Words(s) == [s[..WordRun(s)]] + Words(s[WordRun(s)..])
  {
  }

  /** Cutting `a + r` at a position `m` inside `a`. */
  lemma CutBefore(a: string, r: string, m: nat)
    requires 0 < m <= |a|
    ensures (a + r)[..|a|] == a && (a + r)[0] == a[0]
    ensures (a + r)[..m] == a[..m] && (a + r)[m..] == a[m..] + r
  {
  }

  /** A token that ends inside `a` ends at the same place in anything `a` begins. */
  lemma {:induction false} WordRunPrefix(a: string, s: string)
    requires |a| <= |s| && s[..|a|] == a && WordRun(a) < |a|
    ensures WordRun(s) == WordRun(a)
  {
    assert s[0] == a[0];
    if !IsSpace(a[0]) {
      assert s[1..][..|a| - 1] == a[1..];
      WordRunPrefix(a[1..], s[1..]);
    }
  }

  /** `str.split()` undoes joining whitespace-free tokens with single spaces. */
  lemma {:induction false} WordsOfJoin(ws: seq<string>)
    requires forall i :: 0 <= i < |ws| ==> IsWord(ws[i])
    ensures Words(Join(ws, ' ')) == ws
  {
    if |ws| == 0 {
      assert Words("") == [];
    } else if |ws| == 1 {
      WordsCons(ws[0], "");
      assert ws[0] + "" == ws[0];
      assert Words("") == [];
    } else {
      WordsOfJoin(ws[1..]);
      WordsOfJoinCons(ws[0], ws[1..]);
      assert [ws[0]] + ws[1..] == ws;
    }
  }

  /** The step of `WordsOfJoin`: one more word in front of a non-empty join. */
  lemma WordsOfJoinCons(w: string, tail: seq<string>)
    requires IsWord(w) && tail != []
    requires Words(Join(tail, ' ')) == tail
    ensures Words(Join([w] + tail, ' ')) == [w] + tail
  {
    var ws := [w] + tail;
    var rest := [' '] + Join(tail, ' ');
    assert ws[1..] == tail;
    assert Join(ws, ' ') == w + rest;
    WordsCons(w, rest);
    assert rest[0] == ' ';
    assert rest[1..] == Join(tail, ' ');
  }

  // ---------------------------------------------------------------------
  // `s.replace(a, b)` for single characters, and `s.replace(a, "")`

  /** Python's `s.replace(from, to)`: every `from` becomes `to`, nothing else moves. */
  function Replace(s: string, from: char, to: char): (r: string)
    ensures |r| == |s|
    ensures forall k :: 0 <= k < |s| ==> r[k] == (if s[k] == from then to else s[k])
  {
    if s == [] then [] else [if s[0] == from then to else s[0]] + Replace(s[1..], from, to)
  }

  /** Python's `s.replace(c, "")`: `s` without any `c`. */
  function Remove(s: string, c: char): (r: string)
    ensures c !in r
    ensures |r| <= |s|
  {
    if s == [] then [] else (if s[0] == c then [] else [s[0]]) + Remove(s[1..], c)
  }

  /** Removal keeps every other character, and changes nothing when there is no `c`. */
  lemma {:induction false} RemoveKeepsOthers(s: string, c: char)
    ensures forall x :: x in Remove(s, c) <==> x in s && x != c
    ensures c !in s ==> Remove(s, c) == s
  {
    if s != [] {
      RemoveKeepsOthers(s[1..], c);
      assert s == [s[0]] + s[1..];
    }
  }

  /** Removal works piece by piece, so it keeps the order of what remains. */
  lemma {:induction false} RemoveConcat(a: string, b: string, c: char)
    ensures Remove(a + b, c) == Remove(a, c) + Remove(b, c)
  {
    if a == [] {
      assert a + b == b;
    } else {
      var head := if a[0] == c then "" else [a[0]];
      var ab := a + b;
      assert ab[0] == a[0] && ab[1..] == a[1..] + b;
      calc {
        Remove(ab, c);
        head + Remove(a[1..] + b, c);
        { RemoveConcat(a[1..], b, c); }
        head + (Remove(a[1..], c) + Remove(b, c));
        (head + Remove(a[1..], c)) + Remove(b, c);
        Remove(a, c) + Remove(b, c);
      }
    }
  }
}