/** Character and string operations of Rust's standard library that the
    launcher relies on: case mapping (ASCII part), `char::is_whitespace`,
    `str::split` on a character, `join`, and `str::replace`. */
module Text {

  /** Rust's `char::is_whitespace`: the characters with the Unicode
      White_Space property. */
  function IsWhitespace(c: char): (ws: bool)
    // the ASCII blanks are whitespace, and no letter or digit is
    ensures c == ' ' || c == '\t' || c == '\n' || c == '\r' ==> ws
    ensures 'A' <= c <= 'Z' || 'a' <= c <= 'z' || '0' <= c <= '9' ==> !ws
  {
    || ('\t' <= c <= '\r')
    || c == ' '
    || c == '\U{0085}'
    || c == '\U{00A0}'
    || c == '\U{1680}'
    || ('\U{2000}' <= c <= '\U{200A}')
    || c == '\U{2028}'
    || c == '\U{2029}'
    || c == '\U{202F}'
    || c == '\U{205F}'
    || c == '\U{3000}'
  }

  predicate IsAsciiUpper(c: char) { 'A' <= c <= 'Z' }

  predicate IsAsciiLower(c: char) { 'a' <= c <= 'z' }

  /** Lower-casing of one character (ASCII letters only). */
  function LowerChar(c: char): (r: char)
    ensures !IsAsciiUpper(r)
    ensures IsAsciiUpper(c) <==> IsAsciiLower(r) && r != c
  {
    if IsAsciiUpper(c) then (c as int + 32) as char else c
  }

  /** Upper-casing of one character (ASCII letters only). */
  function UpperChar(c: char): (r: char)
    ensures !IsAsciiLower(r)
    ensures IsAsciiLower(c) <==> IsAsciiUpper(r) && r != c
  {
    if IsAsciiLower(c) then (c as int - 32) as char else c
  }

  /** Lower-casing first does not change the upper-case form. */
  lemma UpperOfLower(c: char)
    ensures UpperChar(LowerChar(c)) == UpperChar(c)
  {
  }

  /** `str::to_lowercase`, restricted to ASCII letters. */
  function ToLower(s: string): (r: string)
    ensures |r| == |s|
    ensures forall k :: 0 <= k < |s| ==> r[k] == LowerChar(s[k])
  {
    seq(|s|, k requires 0 <= k < |s| => LowerChar(s[k]))
  }

  /** `str::to_uppercase`, restricted to ASCII letters. */
  function ToUpper(s: string): (r: string)
    ensures |r| == |s|
    ensures forall k :: 0 <= k < |s| ==> r[k] == UpperChar(s[k])
  {
    seq(|s|, k requires 0 <= k < |s| => UpperChar(s[k]))
  }

  /** Upper-casing works character by character, so it distributes over
      concatenation. */
  lemma ToUpperAppend(a: string, b: string)
    ensures ToUpper(a + b) == ToUpper(a) + ToUpper(b)
  {
    var r, t := ToUpper(a + b), ToUpper(a) + ToUpper(b);
    forall k | 0 <= k < |r| ensures r[k] == t[k] {
      if k < |a| {
        assert (a + b)[k] == a[k] && t[k] == ToUpper(a)[k];
      } else {
        assert (a + b)[k] == b[k - |a|] && t[k] == ToUpper(b)[k - |a|];
      }
    }
    assert |r| == |t|;
  }

  /** `String::retain(|c| !c.is_whitespace())`: keeps the other characters
      in their order. */
  function RemoveWhitespace(s: string): (r: string)
    ensures |r| <= |s|
    ensures forall k :: 0 <= k < |r| ==> !IsWhitespace(r[k]) && r[k] in s
  {
    if s == [] then []
    else (if IsWhitespace(s[0]) then [] else [s[0]]) + RemoveWhitespace(s[1..])
  }

  lemma {:induction false} RemoveWhitespaceAppend(a: string, b: string)
    ensures RemoveWhitespace(a + b) == RemoveWhitespace(a) + RemoveWhitespace(b)
  {
    if a == [] {
      assert a + b == b;
    } else {
      assert (a + b)[0] == a[0];
      assert (a + b)[1..] == a[1..] + b;
      RemoveWhitespaceAppend(a[1..], b);
    }
  }

  /** `str::split(sep)` with a one-character separator: the pieces between
      separators, always at least one (an empty string gives one empty piece). */
  function Split(s: string, sep: char): (r: seq<string>)
    ensures |r| >= 1
    ensures forall k :: 0 <= k < |r| ==> sep !in r[k]
  {
    if s == [] then [""]
    else if s[0] == sep then [""] + Split(s[1..], sep)
    else
      var rest := Split(s[1..], sep);
      [[s[0]] + rest[0]] + rest[1..]
  }

  /** `join` of a list of strings with a one-character separator. */
  function Join(ts: seq<string>, sep: char): (r: string)
  {
    if ts == [] then ""
    else if |ts| == 1 then ts[0]
    else ts[0] + [sep] + Join(ts[1..], sep)
  }

  /** A character absent from a string is absent from each of its pieces. */
  lemma {:induction false} SplitAvoids(s: string, sep: char, c: char)
    requires c !in s
    ensures forall k :: 0 <= k < |Split(s, sep)| ==> c !in Split(s, sep)[k]
  {
    if s != [] {
      SplitAvoids(s[1..], sep, c);
      if s[0] != sep {
        var rest := Split(s[1..], sep);
        assert c !in [s[0]] + rest[0];
        assert forall k :: 1 <= k < |rest| ==> rest[1..][k - 1] == rest[k];
      } else {
        assert forall k :: 1 <= k < |Split(s, sep)| ==> Split(s, sep)[k] == Split(s[1..], sep)[k - 1];
      }
    }
  }

  /** Joining pieces that lack a character, with another separator, does
      not bring the character in. */
  lemma {:induction false} JoinAvoids(ts: seq<string>, sep: char, c: char)
    requires c != sep && forall k :: 0 <= k < |ts| ==> c !in ts[k]
    ensures c !in Join(ts, sep)
  {
    if |ts| > 1 {
      JoinAvoids(ts[1..], sep, c);
    }
  }

  /** Joining a first piece in front of further pieces. */
  lemma JoinCons(t: string, ts: seq<string>, sep: char)
    requires ts != []
    ensures Join([t] + ts, sep) == t + [sep] + Join(ts, sep)
  {
    assert ([t] + ts)[1..] == ts;
  }

  /** Joining the pieces of a split gives back the original string. */
  lemma {:induction false} JoinSplit(s: string, sep: char)
    ensures Join(Split(s, sep), sep) == s
  {
    if s == [] {
    } else if s[0] == sep {
      JoinSplit(s[1..], sep);
      var r := Split(s, sep);
      assert r[1..] == Split(s[1..], sep);
      assert s == [sep] + s[1..];
    } else {
      JoinSplit(s[1..], sep);
      var rest := Split(s[1..], sep);
      var r := Split(s, sep);
      assert r[1..] == rest[1..];
      if |rest| == 1 {
        assert Join(r, sep) == [s[0]] + rest[0];
      } else {
        assert Join(rest, sep) == rest[0] + [sep] + Join(rest[1..], sep);
        assert s == [s[0]] + s[1..];
      }
    }
  }

  /** Splitting a string that holds no separator gives the string itself. */
  lemma {:induction false} SplitNoSeparator(s: string, sep: char)
    requires sep !in s
    ensures Split(s, sep) == [s]
  {
    if s != [] {
      SplitNoSeparator(s[1..], sep);
      assert [s[0]] + s[1..] == s;
    }
  }

  /** Splitting at a separator preceded by a separator-free piece `a`
      yields `a` and then the pieces of the rest. */
  lemma {:induction false} SplitFirstPiece(a: string, sep: char, b: string)
    requires sep !in a
    ensures Split(a + [sep] + b, sep) == [a] + Split(b, sep)
  {
    if a == [] {
      assert a + [sep] + b == [sep] + b;
      assert ([sep] + b)[1..] == b;
    } else {
      assert (a + [sep] + b)[1..] == a[1..] + [sep] + b;
      SplitFirstPiece(a[1..], sep, b);
      assert [a[0]] + a[1..] == a;
    }
  }

  /** Splitting undoes joining, for pieces that contain no separator. */
  lemma {:induction false} SplitJoin(ts: seq<string>, sep: char)
    requires |ts| >= 1
    requires forall k :: 0 <= k < |ts| ==> sep !in ts[k]
    ensures Split(Join(ts, sep), sep) == ts
  {
    if |ts| == 1 {
      SplitNoSeparator(ts[0], sep);
    } else {
      SplitJoin(ts[1..], sep);
      SplitFirstPiece(ts[0], sep, Join(ts[1..], sep));
      assert [ts[0]] + ts[1..] == ts;
    }
  }

  /** `filter(|s| !s.is_empty())` over a list of pieces. */
  function NonEmpty(ts: seq<string>): (r: seq<string>)
    ensures |r| <= |ts|
    ensures forall k :: 0 <= k < |r| ==> r[k] != "" && r[k] in ts
    ensures forall t :: t in ts && t != "" ==> t in r
  {
    if ts == [] then []
    else (if ts[0] == "" then [] else [ts[0]]) + NonEmpty(ts[1..])
  }

  /** A single piece is kept exactly when it is not empty. */
  lemma NonEmptySingle(t: string)
    ensures NonEmpty([t]) == (if t == "" then [] else [t])
  {
    assert [t][1..] == [];
  }

  /** The filter works piece by piece: it keeps order and repetitions. */
  lemma {:induction false} NonEmptyAppend(a: seq<string>, b: seq<string>)
    ensures NonEmpty(a + b) == NonEmpty(a) + NonEmpty(b)
  {
    if a == [] {
      assert a + b == b;
    } else {
      assert (a + b)[0] == a[0];
      assert (a + b)[1..] == a[1..] + b;
      NonEmptyAppend(a[1..], b);
    }
  }

  /** Pieces none of which is empty all pass, in order. */
  lemma {:induction false} NonEmptyKeepsAll(ts: seq<string>)
    requires forall k :: 0 <= k < |ts| ==> ts[k] != ""
    ensures NonEmpty(ts) == ts
  {
    if ts != [] {
      NonEmptyKeepsAll(ts[1..]);
      assert [ts[0]] + ts[1..] == ts;
    }
  }

  /** `pat` occurs in `s` starting at index `i`. */
  predicate MatchAt(s: string, pat: string, i: nat) {
    i + |pat| <= |s| && s[i..i + |pat|] == pat
  }

  /** `pat` occurs somewhere in `s`. */
  predicate Occurs(s: string, pat: string) {
    exists i: nat | i <= |s| :: MatchAt(s, pat, i)
  }

  /** Rust's `str::replace(pat, rep)`: scans left to right and replaces each
      non-overlapping occurrence of `pat`, resuming after the replaced text. */
  function Replace(s: string, pat: string, rep: string): (r: string)
    requires pat != []
    ensures |rep| <= |pat| ==> |r| <= |s|
    ensures |rep| == |pat| ==> |r| == |s|
    decreases |s|
  {
    if |s| < |pat| then s
    else if s[..|pat|] == pat then rep + Replace(s[|pat|..], pat, rep)
    else [s[0]] + Replace(s[1..], pat, rep)
  }

  /** An occurrence in the tail of `s` is an occurrence in `s` one place later. */
  lemma MatchAtTail(s: string, pat: string, i: nat)
    requires s != []
    ensures MatchAt(s[1..], pat, i) <==> MatchAt(s, pat, i + 1)
  {
    if i + 1 + |pat| <= |s| {
      assert s[1..][i..i + |pat|] == s[i + 1..i + 1 + |pat|];
    }
  }

  /** A two-character pattern occurs at `i` when its two characters do. */
  lemma MatchAtPair(s: string, pat: string, i: nat)
    requires |pat| == 2
    ensures MatchAt(s, pat, i) <==> i + 2 <= |s| && s[i] == pat[0] && s[i + 1] == pat[1]
  {
    if i + 2 <= |s| {
      assert pat == [pat[0], pat[1]];
      assert s[i..i + 2] == [s[i], s[i + 1]];
    }
  }

  /** A pattern with a character that `s` lacks does not occur in `s`. */
  lemma AbsentCharNoMatch(s: string, pat: string, j: nat)
    requires j < |pat| && pat[j] !in s
    ensures !Occurs(s, pat)
  {
    forall i: nat | i + |pat| <= |s| ensures !MatchAt(s, pat, i) {
      assert s[i..i + |pat|][j] == s[i + j];
    }
  }

  /** A two-character pattern occurs in `a + b` only inside `a`, inside `b`
      or across the seam. */
  lemma PairAcrossConcat(a: string, b: string, pat: string)
    requires |pat| == 2 && !Occurs(a, pat) && !Occurs(b, pat)
    requires a != [] && b != [] ==> !(a[|a| - 1] == pat[0] && b[0] == pat[1])
    ensures !Occurs(a + b, pat)
  {
    var s := a + b;
    forall i: nat | i <= |s| ensures !MatchAt(s, pat, i) {
      MatchAtPair(s, pat, i);
      if i + 2 <= |a| {
        MatchAtPair(a, pat, i);
      } else if i >= |a| {
        MatchAtPair(b, pat, i - |a|);
      }
    }
  }

  /** A string without an occurrence of the pattern is left as it is. */
  lemma {:induction false} ReplaceAbsent(s: string, pat: string, rep: string)
    requires pat != []
    requires !Occurs(s, pat)
    ensures Replace(s, pat, rep) == s
    decreases |s|
  {
    if |s| >= |pat| {
      assert !MatchAt(s, pat, 0);
      forall i: nat | i <= |s[1..]| ensures !MatchAt(s[1..], pat, i) {
        MatchAtTail(s, pat, i);
      }
      ReplaceAbsent(s[1..], pat, rep);
      assert [s[0]] + s[1..] == s;
    }
  }

  /** The leftmost occurrence is the one replaced: if `pat` starts nowhere
      inside `a`, then `a + pat + b` becomes `a + rep` followed by the
      replacement of `b`. */
  lemma {:induction false} ReplaceLeftmost(a: string, pat: string, b: string, rep: string)
    requires pat != []
    requires forall i: nat :: i < |a| ==> !MatchAt(a + pat + b, pat, i)
    ensures Replace(a + pat + b, pat, rep) == a + rep + Replace(b, pat, rep)
    decreases |a|
  {
    var s := a + pat + b;
    if a == [] {
      assert s == pat + b;
      assert s[..|pat|] == pat;
      assert s[|pat|..] == b;
    } else {
      assert !MatchAt(s, pat, 0);
      assert s[..|pat|] != pat;
      var t := a[1..] + pat + b;
      assert s[1..] == t;
      forall i: nat | i < |a[1..]| ensures !MatchAt(t, pat, i) {
        MatchAtTail(s, pat, i);
      }
      ReplaceLeftmost(a[1..], pat, b, rep);
      assert Replace(s, pat, rep) == [s[0]] + Replace(t, pat, rep);
      assert [a[0]] + a[1..] == a;
    }
  }
}
