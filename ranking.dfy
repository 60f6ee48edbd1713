/** The fuzzy ranker of a program result (`get_ranking`): a greedy, in-order
    subsequence match of the query against the result's name, lower-cased and
    stripped of whitespace, with a score that decays with the distance of each
    match from a cursor. */
module Ranking {
  import opened Wrappers
  import opened Text

  /** The name as the ranker searches it: lower-cased, whitespace removed. */
  function Normalize(name: string): (n: string)
    ensures |n| <= |name|
    ensures forall k :: 0 <= k < |n| ==> !IsWhitespace(n[k]) && !IsAsciiUpper(n[k])
  {
    RemoveWhitespace(ToLower(name))
  }

  /** `chars().skip(cursor).position(|c| c == letter)`: the offset from the
      cursor of the first occurrence of `letter` at or after the cursor. */
  function FindFrom(n: string, cursor: nat, letter: char): (r: Option<nat>)
    requires cursor <= |n|
    ensures r.Some? ==> cursor + r.value < |n| && n[cursor + r.value] == letter
    ensures r.Some? ==> forall k :: cursor <= k < cursor + r.value ==> n[k] != letter
    ensures r.None? <==> forall k :: cursor <= k < |n| ==> n[k] != letter
    decreases |n| - cursor
  {
    if cursor == |n| then None
    else if n[cursor] == letter then Some(0)
    else match FindFrom(n, cursor + 1, letter)
      case None => None
      case Some(p) => Some(p + 1)
  }

  /** `max(10 - pos, 0)`: what a match at offset `pos` from the cursor adds. */
  function Gain(pos: nat): (g: nat)
    ensures g <= 10
    ensures pos == 0 ==> g == 10
    // a letter found ten or more places past the cursor earns nothing
    ensures g > 0 <==> pos < 10
  {
    if pos < 10 then 10 - pos else 0
  }

  /** One iteration of the ranking loop: the points a query letter adds and
      the cursor after it. */
  function Step(n: string, cursor: nat, letter: char): (r: (nat, nat))
    requires cursor <= |n|
    ensures cursor <= r.1 <= |n|
    ensures r.0 <= 10
    ensures r.1 == cursor <==> forall k :: cursor <= k < |n| ==> n[k] != letter
    ensures r.1 == cursor ==> r.0 == 0
  {
    match FindFrom(n, cursor, letter)
    case None => (0, cursor)
    case Some(pos) => (Gain(pos), cursor + pos + 1)
  }

  /** The score that the letters of `q` add when the search starts at `cursor`. */
  function ScoreFrom(n: string, cursor: nat, q: string): (score: nat)
    requires cursor <= |n|
    ensures score <= 10 * |q|
    decreases q
  {
    if q == [] then 0
    else
      var (gain, next) := Step(n, cursor, q[0]);
      gain + ScoreFrom(n, next, q[1..])
  }

  /** The cursor after the letters of `q` have been searched from `cursor`. */
  function CursorAfter(n: string, cursor: nat, q: string): (c: nat)
    requires cursor <= |n|
    ensures cursor <= c <= |n|
    decreases q
  {
    if q == [] then cursor
    else CursorAfter(n, Step(n, cursor, q[0]).1, q[1..])
  }

  /** The score of a program named `name` for the query `query`. */
  function Rank(name: string, query: string): (score: nat)
    ensures query == [] ==> score == 0
    ensures score <= 10 * |query|
  {
    ScoreFrom(Normalize(name), 0, query)
  }

  /** `ProgramResult::get_ranking`: the loop of the source, keeping the
      running score and the cursor `lastLetterInd`. */
  method GetRanking(name: string, query: string) returns (score: nat)
    ensures score == Rank(name, query)
  {
    score := 0;
    var lastLetterInd: nat := 0;
    var lowercaseName := Normalize(name);
    for i := 0 to |query|
      invariant lastLetterInd <= |lowercaseName|
      invariant lastLetterInd == CursorAfter(lowercaseName, 0, query[..i])
      invariant score + ScoreFrom(lowercaseName, lastLetterInd, query[i..]) == Rank(name, query)
    {
      var letter := query[i];
      var pos := FindFrom(lowercaseName, lastLetterInd, letter);
      assert query[i..][1..] == query[i + 1..];
      CursorAfterAppend(lowercaseName, 0, query[..i], letter);
      assert query[..i + 1] == query[..i] + [letter];
      if pos.Some? {
        lastLetterInd := lastLetterInd + pos.value + 1;
        score := score + Gain(pos.value);
      }
    }
    assert query[|query|..] == [];
  }

  /** Appending a letter to the query moves the cursor by one more step. */
  lemma {:induction false} CursorAfterAppend(n: string, cursor: nat, q: string, letter: char)
    requires cursor <= |n|
    ensures CursorAfter(n, cursor, q + [letter]) == Step(n, CursorAfter(n, cursor, q), letter).1
    decreases q
  {
    if q == [] {
      assert q + [letter] == [letter];
      assert [letter][1..] == [];
    } else {
      assert (q + [letter])[1..] == q[1..] + [letter];
      CursorAfterAppend(n, Step(n, cursor, q[0]).1, q[1..], letter);
    }
  }

  /** Appending a letter to the query adds exactly that letter's step gain
      at the cursor the query leaves behind. */
  lemma {:induction false} ScoreFromAppend(n: string, cursor: nat, q: string, letter: char)
    requires cursor <= |n|
    ensures ScoreFrom(n, cursor, q + [letter])
         == ScoreFrom(n, cursor, q) + Step(n, CursorAfter(n, cursor, q), letter).0
    decreases q
  {
    if q == [] {
      assert q + [letter] == [letter];
      assert [letter][1..] == [];
    } else {
      assert (q + [letter])[1..] == q[1..] + [letter];
      ScoreFromAppend(n, Step(n, cursor, q[0]).1, q[1..], letter);
    }
  }

  /** Typing one more letter never lowers a program's score. */
  lemma RankMonotonic(name: string, query: string, letter: char)
    ensures Rank(name, query) <= Rank(name, query + [letter])
  {
    ScoreFromAppend(Normalize(name), 0, query, letter);
  }

  /** A query that reads off the name from the cursor scores the maximum,
      10 for every letter. */
  lemma {:induction false} ScoreFromExact(n: string, cursor: nat, q: string)
    requires cursor + |q| <= |n|
    requires q == n[cursor..cursor + |q|]
    ensures ScoreFrom(n, cursor, q) == 10 * |q|
    ensures CursorAfter(n, cursor, q) == cursor + |q|
    decreases q
  {
    if q != [] {
      assert n[cursor] == q[0];
      assert FindFrom(n, cursor, q[0]) == Some(0);
      assert q[1..] == n[cursor + 1..cursor + 1 + |q[1..]|];
      ScoreFromExact(n, cursor + 1, q[1..]);
    }
  }

  /** A query that is a prefix of the normalised name scores 10 per letter,
      the most any query of its length can score. */
  lemma RankPrefix(name: string, query: string)
    requires |query| <= |Normalize(name)|
    requires query == Normalize(name)[..|query|]
    ensures Rank(name, query) == 10 * |query|
  {
    ScoreFromExact(Normalize(name), 0, query);
  }

  /** A letter that does not occur in the searched name adds nothing and
      leaves the cursor where it is, so the letters after it are scored as
      if it had not been typed. */
  lemma {:induction false} ScoreFromSkipsAbsent(n: string, cursor: nat, a: string, letter: char, b: string)
    requires cursor <= |n|
    requires letter !in n
    ensures ScoreFrom(n, cursor, a + [letter] + b) == ScoreFrom(n, cursor, a + b)
    decreases a
  {
    if a == [] {
      assert a + [letter] + b == [letter] + b;
      assert ([letter] + b)[1..] == b;
      assert a + b == b;
      assert Step(n, cursor, letter) == (0, cursor);
    } else {
      assert (a + [letter] + b)[1..] == a[1..] + [letter] + b;
      assert (a + b)[1..] == a[1..] + b;
      ScoreFromSkipsAbsent(n, Step(n, cursor, a[0]).1, a[1..], letter, b);
    }
  }

  /** Whitespace and upper-case ASCII letters in the query never match: the
      name is searched lower-cased and without whitespace. */
  lemma RankIgnoresUnmatchable(name: string, a: string, letter: char, b: string)
    requires IsWhitespace(letter) || IsAsciiUpper(letter)
    ensures Rank(name, a + [letter] + b) == Rank(name, a + b)
  {
    var n := Normalize(name);
    assert letter !in n by {
      forall k | 0 <= k < |n| ensures n[k] != letter { }
    }
    ScoreFromSkipsAbsent(n, 0, a, letter, b);
  }

  /** The ranker ignores whitespace in the name. */
  lemma NormalizeDropsWhitespace(a: string, w: char, b: string)
    requires IsWhitespace(w)
    ensures Normalize(a + [w] + b) == Normalize(a + b)
  {
    assert ToLower(a + [w] + b) == ToLower(a) + [w] + ToLower(b);
    assert ToLower(a + b) == ToLower(a) + ToLower(b);
    RemoveWhitespaceAppend(ToLower(a) + [w], ToLower(b));
    RemoveWhitespaceAppend(ToLower(a), [w]);
    RemoveWhitespaceAppend(ToLower(a), ToLower(b));
  }

  /** The ranker ignores the case of the name's letters. */
  lemma NormalizeIgnoresCase(name: string)
    ensures Normalize(ToUpper(name)) == Normalize(name)
  {
    assert ToLower(ToUpper(name)) == ToLower(name);
  }

  /** A name already lower-case and without whitespace is searched as it is. */
  lemma NormalizePlain(name: string)
    requires forall k :: 0 <= k < |name| ==> !IsWhitespace(name[k]) && !IsAsciiUpper(name[k])
    ensures Normalize(name) == name
  {
    assert ToLower(name) == name;
    RemoveWhitespaceKeeps(name);
  }

  lemma {:induction false} RemoveWhitespaceKeeps(s: string)
    requires forall k :: 0 <= k < |s| ==> !IsWhitespace(s[k])
    ensures RemoveWhitespace(s) == s
  {
    if s != [] {
      RemoveWhitespaceKeeps(s[1..]);
      assert [s[0]] + s[1..] == s;
    }
  }

  lemma ChromeIsPlain(name: string)
    requires name == "chrome"
    ensures Normalize(name) == name
  {
    NormalizePlain(name);
  }

  /** "chrome" and "ch": the query reads off the name, 10 + 10. */
  lemma RankChromeCh()
    ensures Rank("chrome", "ch") == 20
  {
    ChromeIsPlain("chrome");
    RankPrefix("chrome", "ch");
  }

  /** "chrome" and "cr": after 'c' the cursor is at 'h', and 'r' is found one
      place past it, 10 + 9. */
  lemma RankChromeCr()
    ensures Rank("chrome", "cr") == 19
  {
    var name, query := "chrome", "cr";
    ChromeIsPlain(name);
    assert FindFrom(name, 0, 'c') == Some(0);
    assert FindFrom(name, 2, 'r') == Some(0);
    assert FindFrom(name, 1, 'r') == Some(1);
    assert query[1..] == "r";
    assert ScoreFrom(name, 1, "r") == 9;
  }

  /** "chrome" and "cx": 'x' occurs nowhere in the name and adds nothing. */
  lemma RankChromeCx(name: string, query: string)
    requires name == "chrome" && query == "cx"
    ensures Rank(name, query) == 10
  {
    ChromeIsPlain(name);
    RankPrefix(name, "c");
    assert 'x' !in name;
    ScoreFromSkipsAbsent(name, 0, "c", 'x', "");
    assert "c" + ['x'] + "" == query;
    assert "c" + "" == "c";
  }
}
