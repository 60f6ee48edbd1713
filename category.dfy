/** `ProgramResult::choose_category` and `EXCLUDED_CATEGORIES`: the one label
    shown for a program, picked from the `Categories` list of its desktop
    entry. */
module Category {
  import opened Wrappers
  import opened Text

  /** Categories never shown: too general, for developers, or naming a
      desktop environment or toolkit. Compared against upper-cased tokens. */
  const ExcludedCategories: seq<string> := [
    "APPLICATION",
    "CONSOLEONLY",
    "NETWORK",
    "FILETRANSFER",
    "TEXTEDITOR",
    "X-XFCE",
    "GNOME",
    "XFCE",
    "GTK",
    "KDE"
  ]

  /** A token is dropped when its upper-case form is in the table. */
  function IsExcluded(token: string): (excluded: bool)
    // the spelling's case does not matter: the lower-cased token is excluded alike
    ensures excluded <==> ToUpper(ToLower(token)) in ExcludedCategories
  {
    assert ToUpper(ToLower(token)) == ToUpper(token) by {
      forall k | 0 <= k < |token| ensures ToUpper(ToLower(token))[k] == ToUpper(token)[k] {
        assert ToLower(token)[k] == LowerChar(token[k]);
      }
    }
    ToUpper(token) in ExcludedCategories
  }

  /** `filter(..).collect()` followed by `get(0)`: the first token that is
      not excluded, if any. */
  function FirstKept(tokens: seq<string>): (r: Option<string>)
    ensures r.None? <==> forall k :: 0 <= k < |tokens| ==> IsExcluded(tokens[k])
    ensures r.Some? ==> exists i :: 0 <= i < |tokens| && tokens[i] == r.value
                          && !IsExcluded(tokens[i])
                          && forall j :: 0 <= j < i ==> IsExcluded(tokens[j])
  {
    if tokens == [] then None
    else if !IsExcluded(tokens[0]) then Some(tokens[0])
    else
      var r := FirstKept(tokens[1..]);
      assert r.Some? ==> forall j :: 0 <= j < 1 ==> IsExcluded(tokens[j]);
      r
  }

  // ----- Title case (the `convert_case` crate's `Case::Title`) -----

  /** Characters that separate words. */
  predicate IsDelimiter(c: char) {
    c == ' ' || c == '_' || c == '-'
  }

  /** Replaces every delimiter by a space and puts a space where a lower-case
      letter is followed by an upper-case one, so that splitting on spaces
      yields the words. */
  function MarkBoundaries(s: string, prevLower: bool): (r: string)
    ensures '_' !in r && '-' !in r
  {
    if s == [] then []
    else if IsDelimiter(s[0]) then [' '] + MarkBoundaries(s[1..], false)
    else if prevLower && IsAsciiUpper(s[0]) then [' ', s[0]] + MarkBoundaries(s[1..], false)
    else [s[0]] + MarkBoundaries(s[1..], IsAsciiLower(s[0]))
  }

  /** The words of `s`, empty words dropped. */
  function Words(s: string): (ws: seq<string>)
    // each word is non-empty and holds no delimiter
    ensures forall k :: 0 <= k < |ws| ==> ws[k] != "" && ' ' !in ws[k] && '_' !in ws[k] && '-' !in ws[k]
  {
    var marked := MarkBoundaries(s, false);
    SplitAvoids(marked, ' ', '_');
    SplitAvoids(marked, ' ', '-');
    NonEmpty(Split(marked, ' '))
  }

  /** First letter upper-case, the rest lower-case. */
  function Capitalize(w: string): (r: string)
    ensures |r| == |w|
    // only letters change
    ensures forall k :: 0 <= k < |w| && !IsAsciiUpper(w[k]) && !IsAsciiLower(w[k]) ==> r[k] == w[k]
  {
    if w == [] then [] else [UpperChar(w[0])] + ToLower(w[1..])
  }

  /** `to_case(Case::Title)`: the capitalised words joined by single spaces. */
  function TitleCase(s: string): (r: string)
    // the words are separated by spaces only: no `_` or `-` is left
    ensures '_' !in r && '-' !in r
  {
    var ws := Words(s);
    var caps := seq(|ws|, k requires 0 <= k < |ws| => Capitalize(ws[k]));
    assert forall k :: 0 <= k < |caps| ==> '_' !in caps[k] && '-' !in caps[k] by {
      forall k | 0 <= k < |caps| ensures '_' !in caps[k] && '-' !in caps[k] {
        CapitalizeKeeps(ws[k]);
      }
    }
    JoinAvoids(caps, ' ', '_');
    JoinAvoids(caps, ' ', '-');
    Join(caps, ' ')
  }

  /** Capitalising a word that has no `_` or `-` gives none. */
  lemma CapitalizeKeeps(w: string)
    requires '_' !in w && '-' !in w
    ensures '_' !in Capitalize(w) && '-' !in Capitalize(w)
  {
    var r := Capitalize(w);
    forall k | 0 <= k < |r| ensures r[k] != '_' && r[k] != '-' {
      if IsAsciiUpper(w[k]) || IsAsciiLower(w[k]) {
        if k == 0 {
          assert r[k] == UpperChar(w[0]);
        } else {
          assert r[k] == ToLower(w[1..])[k - 1] == LowerChar(w[k]);
        }
      }
    }
  }

  /** `choose_category`: split on `;`, keep the first token whose upper-case
      form is not excluded (default `"Application"`), title-case it and
      upper-case the result. */
  function ChooseCategory(list: Option<string>): (shown: string)
    ensures forall k :: 0 <= k < |shown| ==> !IsAsciiLower(shown[k])
  {
    var tokens := Split(list.GetOr(""), ';');
    ToUpper(TitleCase(FirstKept(tokens).GetOr("Application")))
  }

  // ----- Properties -----

  /** A single word: no delimiter and no lower-to-upper case change. */
  predicate PlainWord(w: string) {
    && (forall k :: 0 <= k < |w| ==> !IsDelimiter(w[k]))
    && (forall k :: 0 < k < |w| ==> !(IsAsciiLower(w[k - 1]) && IsAsciiUpper(w[k])))
  }

  lemma {:induction false} MarkPlain(w: string, prevLower: bool)
    requires PlainWord(w)
    requires prevLower && w != [] ==> !IsAsciiUpper(w[0])
    ensures MarkBoundaries(w, prevLower) == w
  {
    if w != [] {
      assert PlainWord(w[1..]) by {
        forall k | 0 < k < |w[1..]| ensures !(IsAsciiLower(w[1..][k - 1]) && IsAsciiUpper(w[1..][k])) {
          assert w[1..][k - 1] == w[k] && w[1..][k] == w[k + 1];
        }
      }
      MarkPlain(w[1..], IsAsciiLower(w[0]));
      assert [w[0]] + w[1..] == w;
    }
  }

  /** Capitalising changes only case, so it disappears under upper-casing. */
  lemma UpperCapitalize(w: string)
    ensures ToUpper(Capitalize(w)) == ToUpper(w)
  {
    if w != [] {
      var c := Capitalize(w);
      var u, v := ToUpper(c), ToUpper(w);
      forall k | 0 <= k < |w| ensures u[k] == v[k] {
        if k > 0 {
          assert c[k] == ToLower(w[1..])[k - 1] == LowerChar(w[k]);
          UpperOfLower(w[k]);
        }
      }
      assert |u| == |v|;
    }
  }

  /** Title-casing a single word and upper-casing it gives the word in upper case. */
  lemma TitleUpperPlain(w: string)
    requires w != [] && PlainWord(w)
    ensures ToUpper(TitleCase(w)) == ToUpper(w)
  {
    MarkPlain(w, false);
    SplitNoSeparator(w, ' ');
    assert Words(w) == [w];
    assert TitleCase(w) == Capitalize(w);
    UpperCapitalize(w);
  }

  /** Marking a word that ends in a lower-case letter and is followed by more
      text leaves the word as it is. */
  lemma {:induction false} MarkPlainThen(a: string, rest: string, prevLower: bool)
    requires a != [] && PlainWord(a)
    requires prevLower ==> !IsAsciiUpper(a[0])
    ensures MarkBoundaries(a + rest, prevLower)
            == a + MarkBoundaries(rest, IsAsciiLower(a[|a| - 1]))
  {
    assert (a + rest)[0] == a[0] && (a + rest)[1..] == a[1..] + rest;
    if |a| > 1 {
      assert PlainWord(a[1..]) by {
        forall k | 0 < k < |a[1..]| ensures !(IsAsciiLower(a[1..][k - 1]) && IsAsciiUpper(a[1..][k])) {
          assert a[1..][k - 1] == a[k] && a[1..][k] == a[k + 1];
        }
      }
      MarkPlainThen(a[1..], rest, IsAsciiLower(a[0]));
      assert a == [a[0]] + a[1..];
    }
  }

  /** Two words run together in camel case (`AudioVideo`) come out as two
      words separated by a space. */
  lemma TitleUpperCamel(a: string, b: string)
    requires a != [] && b != [] && PlainWord(a) && PlainWord(b)
    requires IsAsciiLower(a[|a| - 1]) && IsAsciiUpper(b[0])
    ensures ToUpper(TitleCase(a + b)) == ToUpper(a) + " " + ToUpper(b)
  {
    CamelWords(a, b);
    TitleCaseTwoWords(a + b, a, b);
    UpperCapitalPair(a, b);
  }

  /** Text made of two words title-cases to both words capitalised, with a
      space between. */
  lemma TitleCaseTwoWords(s: string, a: string, b: string)
    requires Words(s) == [a, b]
    ensures TitleCase(s) == Capitalize(a) + " " + Capitalize(b)
  {
    var ws := Words(s);
    var caps := [Capitalize(a), Capitalize(b)];
    assert seq(|ws|, k requires 0 <= k < |ws| => Capitalize(ws[k])) == caps;
    assert TitleCase(s) == Join(caps, ' ');
    assert caps[1..] == [Capitalize(b)];
    assert Join(caps, ' ') == Capitalize(a) + [' '] + Capitalize(b);
  }

  lemma UpperCapitalPair(a: string, b: string)
    ensures ToUpper(Capitalize(a) + " " + Capitalize(b)) == ToUpper(a) + " " + ToUpper(b)
  {
    ToUpperAppend(Capitalize(a) + " ", Capitalize(b));
    ToUpperAppend(Capitalize(a), " ");
    UpperCapitalize(a);
    UpperCapitalize(b);
  }

  /** Title case depends only on the words. */
  lemma TitleCaseOfWords(s: string, t: string)
    requires Words(s) == Words(t)
    ensures TitleCase(s) == TitleCase(t)
  {
  }

  /** Two words joined by a space, `_` or `-` (`Audio_Video`) come out as
      the two words separated by a space. */
  lemma TitleUpperDelimited(a: string, d: char, b: string)
    requires a != [] && b != [] && PlainWord(a) && PlainWord(b) && IsDelimiter(d)
    ensures ToUpper(TitleCase(a + [d] + b)) == ToUpper(a) + " " + ToUpper(b)
  {
    DelimitedWords(a, d, b);
    TitleCaseTwoWords(a + [d] + b, a, b);
    UpperCapitalPair(a, b);
  }

  /** A delimiter between two words is a word boundary. */
  lemma DelimitedWords(a: string, d: char, b: string)
    requires a != [] && b != [] && PlainWord(a) && PlainWord(b) && IsDelimiter(d)
    ensures Words(a + [d] + b) == [a, b]
  {
    DelimitedMarks(a, d, b);
    var ts := [a, b];
    assert Join(ts, ' ') == a + [' '] + b by { assert ts[1..] == [b]; }
    assert forall k :: 0 <= k < |ts| ==> ' ' !in ts[k];
    SplitJoin(ts, ' ');
    NonEmptyKeepsAll(ts);
  }

  lemma DelimitedMarks(a: string, d: char, b: string)
    requires a != [] && PlainWord(a) && PlainWord(b) && IsDelimiter(d)
    ensures MarkBoundaries(a + [d] + b, false) == a + [' '] + b
  {
    assert a + [d] + b == a + ([d] + b);
    MarkPlainThen(a, [d] + b, false);
    assert ([d] + b)[1..] == b;
    MarkPlain(b, false);
  }

  /** The boundary marks split a camel-case pair into its two words. */
  lemma CamelWords(a: string, b: string)
    requires a != [] && b != [] && PlainWord(a) && PlainWord(b)
    requires IsAsciiLower(a[|a| - 1]) && IsAsciiUpper(b[0])
    ensures Words(a + b) == [a, b]
  {
    CamelMarks(a, b);
    var ts := [a, b];
    assert Join(ts, ' ') == a + [' '] + b by { assert ts[1..] == [b]; }
    assert forall k :: 0 <= k < |ts| ==> ' ' !in ts[k];
    SplitJoin(ts, ' ');
    NonEmptyKeepsAll(ts);
  }

  lemma CamelMarks(a: string, b: string)
    requires a != [] && b != [] && PlainWord(a) && PlainWord(b)
    requires IsAsciiLower(a[|a| - 1]) && IsAsciiUpper(b[0])
    ensures MarkBoundaries(a + b, false) == a + [' '] + b
  {
    MarkPlainThen(a, b, false);
    assert PlainWord(b[1..]) by {
      forall k | 0 < k < |b[1..]| ensures !(IsAsciiLower(b[1..][k - 1]) && IsAsciiUpper(b[1..][k])) {
        assert b[1..][k - 1] == b[k] && b[1..][k] == b[k + 1];
      }
    }
    MarkPlain(b[1..], false);
    assert b == [b[0]] + b[1..];
  }

  /** An absent or empty list is one empty token, which is not excluded, so
      the label is empty rather than the default. */
  lemma ChooseCategoryEmptyList()
    ensures ChooseCategory(None) == ""
    ensures ChooseCategory(Some("")) == ""
  {
    assert Split("", ';') == [""];
    assert !IsExcluded("");
    assert FirstKept([""]) == Some("");
    assert Split("", ' ') == [""];
    assert Words("") == [];
  }

  /** Otherwise the label is the first kept token, title-cased and then
      upper-cased. */
  lemma ChooseCategoryFirstKept(list: string, i: nat)
    requires i < |Split(list, ';')|
    requires !IsExcluded(Split(list, ';')[i])
    requires forall j :: 0 <= j < i ==> IsExcluded(Split(list, ';')[j])
    ensures ChooseCategory(Some(list)) == ToUpper(TitleCase(Split(list, ';')[i]))
  {
    FirstKeptIs(Split(list, ';'), i);
  }

  /** For a first kept token that is a single word, the label is that token
      upper-cased. */
  lemma ChooseCategoryFirstWord(list: string, i: nat)
    requires i < |Split(list, ';')|
    requires !IsExcluded(Split(list, ';')[i])
    requires forall j :: 0 <= j < i ==> IsExcluded(Split(list, ';')[j])
    requires Split(list, ';')[i] != "" && PlainWord(Split(list, ';')[i])
    ensures ChooseCategory(Some(list)) == ToUpper(Split(list, ';')[i])
  {
    ChooseCategoryFirstKept(list, i);
    TitleUpperPlain(Split(list, ';')[i]);
  }

  lemma ApplicationIsPlain(w: string)
    requires w == "Application"
    ensures w != [] && PlainWord(w) && ToUpper(w) == "APPLICATION"
  {
  }

  /** The default label is `APPLICATION`. */
  lemma DefaultLabel()
    ensures ToUpper(TitleCase("Application")) == "APPLICATION"
  {
    ApplicationIsPlain("Application");
    TitleUpperPlain("Application");
  }

  /** The default is taken exactly when every token is excluded, and then
      the label is `APPLICATION`. */
  lemma ChooseCategoryDefault(list: string)
    requires forall t :: t in Split(list, ';') ==> IsExcluded(t)
    ensures FirstKept(Split(list, ';')) == None
    ensures ChooseCategory(Some(list)) == "APPLICATION"
  {
    var tokens := Split(list, ';');
    forall k | 0 <= k < |tokens| ensures IsExcluded(tokens[k]) {
      assert tokens[k] in tokens;
    }
    DefaultLabel();
  }

  lemma {:induction false} FirstKeptIs(tokens: seq<string>, i: nat)
    requires i < |tokens| && !IsExcluded(tokens[i])
    requires forall j :: 0 <= j < i ==> IsExcluded(tokens[j])
    ensures FirstKept(tokens) == Some(tokens[i])
  {
    if i > 0 {
      assert IsExcluded(tokens[0]);
      FirstKeptIs(tokens[1..], i - 1);
    }
  }
}

/** The default label and the labels of a few category lists. */
module CategoryExamples {
  import opened Wrappers
  import opened Text
  import opened Category

  lemma SplitThree(list: string, a: string, b: string, c: string)
    requires ';' !in a && ';' !in b && ';' !in c
    requires list == a + ";" + b + ";" + c
    ensures Split(list, ';') == [a, b, c]
  {
    var ts := [a, b, c];
    assert ts[1..] == [b, c] && ts[1..][1..] == [c];
    assert Join([b, c], ';') == b + [';'] + c;
    assert Join(ts, ';') == a + [';'] + (b + [';'] + c);
    assert ";" == [';'];
    assert Join(ts, ';') == list;
    SplitJoin(ts, ';');
  }

  lemma UtilityKept(t: string)
    requires t == "Utility"
    ensures t != "" && !IsExcluded(t) && PlainWord(t) && ToUpper(t) == "UTILITY"
  {
    assert ToUpper(t) == "UTILITY";
  }

  /** `"Utility;GTK;Office"` gives `UTILITY`: the first token already survives. */
  lemma ChooseCategoryUtility()
    ensures ChooseCategory(Some("Utility;GTK;Office")) == "UTILITY"
  {
    SplitThree("Utility;GTK;Office", "Utility", "GTK", "Office");
    UtilityKept("Utility");
    ChooseCategoryFirstWord("Utility;GTK;Office", 0);
  }

  lemma LowerToolkitsExcluded(a: string, b: string, c: string)
    requires a == "gtk" && b == "kde" && c == "Office"
    ensures IsExcluded(a) && IsExcluded(b)
    ensures c != "" && !IsExcluded(c) && PlainWord(c) && ToUpper(c) == "OFFICE"
  {
    assert ToUpper(a) == "GTK";
    assert ToUpper(b) == "KDE";
    assert ToUpper(c) == "OFFICE";
  }

  /** Exclusion ignores case: `"gtk;kde;Office"` gives `OFFICE`. */
  lemma ChooseCategoryCaseInsensitive(list: string)
    requires list == "gtk;kde;Office"
    ensures ChooseCategory(Some(list)) == "OFFICE"
  {
    SplitThree(list, "gtk", "kde", "Office");
    LowerToolkitsExcluded("gtk", "kde", "Office");
    ThirdTokenShown(list, "gtk", "kde", "Office");
    TitleUpperPlain("Office");
  }

  lemma ThirdTokenShown(list: string, a: string, b: string, c: string)
    requires Split(list, ';') == [a, b, c]
    requires IsExcluded(a) && IsExcluded(b) && !IsExcluded(c)
    ensures ChooseCategory(Some(list)) == ToUpper(TitleCase(c))
  {
    ChooseCategoryFirstKept(list, 2);
  }

  lemma SpacedToolkitLabel(t: string)
    requires t == " GTK"
    ensures !IsExcluded(t)
    ensures ToUpper(TitleCase(t)) == "GTK"
  {
    SpacedNotExcluded(t);
    var w := "GTK";
    SpacedWords(t, w);
    TitleCaseOfWords(t, w);
    TitleUpperPlain(w);
    assert ToUpper(w) == "GTK";
  }

  lemma SpacedNotExcluded(t: string)
    requires t == " GTK"
    ensures !IsExcluded(t)
  {
    assert ToUpper(t) == " GTK";
  }

  /** A leading space only adds an empty word, which is dropped. */
  lemma SpacedWords(t: string, w: string)
    requires w == "GTK" && t == [' '] + w
    ensures Words(t) == [w] && PlainWord(w) && w != []
  {
    MarkPlain(w, false);
    assert MarkBoundaries(t, false) == [' '] + w by {
      assert t[1..] == w;
    }
    var ts := ["", w];
    assert Join(ts, ' ') == "" + [' '] + w;
    SplitJoin(ts, ' ');
    assert NonEmpty(ts[1..]) == [w];
  }

  /** Tokens are not trimmed: `" GTK;Office"` keeps `" GTK"`, whose leading
      space is lost only in title-casing, giving `GTK`. */
  lemma ChooseCategoryUntrimmed()
    ensures ChooseCategory(Some(" GTK;Office")) == "GTK"
  {
    var ts := [" GTK", "Office"];
    assert Join(ts, ';') == " GTK;Office";
    SplitJoin(ts, ';');
    SpacedToolkitLabel(" GTK");
    FirstKeptIs(ts, 0);
  }

  /** `AudioVideo` is two words: its label is `AUDIO VIDEO`. */
  lemma AudioVideoLabel()
    ensures ToUpper(TitleCase("AudioVideo")) == "AUDIO VIDEO"
  {
    AudioVideoParts("AudioVideo", "Audio", "Video");
    TitleUpperCamel("Audio", "Video");
  }

  /** A hyphen separates words too: `Audio-Video` is labelled `AUDIO VIDEO`. */
  lemma HyphenatedLabel()
    ensures ToUpper(TitleCase("Audio-Video")) == "AUDIO VIDEO"
  {
    HyphenatedParts("Audio-Video", "Audio", "Video");
    TitleUpperDelimited("Audio", '-', "Video");
  }

  lemma HyphenatedParts(s: string, a: string, b: string)
    requires s == "Audio-Video" && a == "Audio" && b == "Video"
    ensures s == a + ['-'] + b && PlainWord(a) && PlainWord(b)
    ensures ToUpper(a) + " " + ToUpper(b) == "AUDIO VIDEO"
  {
    AudioVideoUpper(a, b);
  }

  lemma AudioVideoParts(s: string, a: string, b: string)
    requires s == "AudioVideo" && a == "Audio" && b == "Video"
    ensures s == a + b && PlainWord(a) && PlainWord(b)
    ensures ToUpper(a) + " " + ToUpper(b) == "AUDIO VIDEO"
  {
    AudioVideoUpper(a, b);
  }

  lemma AudioVideoUpper(a: string, b: string)
    requires a == "Audio" && b == "Video"
    ensures ToUpper(a) + " " + ToUpper(b) == "AUDIO VIDEO"
  {
    assert ToUpper(a) == "AUDIO";
    assert ToUpper(b) == "VIDEO";
  }
}
