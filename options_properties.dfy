/** Properties of camel-casing and of the option fold. */
module OptionsProperties {
  import opened Wrappers
  import opened Options

  predicate NoSeparator(w: string) {
    forall k :: 0 <= k < |w| ==> !IsSeparator(w[k])
  }

  function SumLen(ws: seq<string>): nat {
    if ws == [] then 0 else |ws[0]| + SumLen(ws[1..])
  }

  /** Splitting loses nothing: the words and the separators rebuild the text, and no word holds a separator. */
  lemma SplitRejoin(text: string)
    ensures |Split(text)| == |Separators(text)| + 1
    ensures Rejoin(Split(text), Separators(text)) == text
    ensures forall i :: 0 <= i < |Split(text)| ==> NoSeparator(Split(text)[i])
  {
    SplitCount(text);
    SplitRebuilds(text);
    SplitWords(text);
  }

  lemma {:induction false} SplitCount(text: string)
    ensures |Split(text)| == |Separators(text)| + 1
  {
    if text != [] {
      SplitCount(text[1..]);
    }
  }

  lemma {:induction false} SplitRebuilds(text: string)
    ensures |Split(text)| == |Separators(text)| + 1
    ensures Rejoin(Split(text), Separators(text)) == text
  {
    SplitCount(text);
    if text != [] {
      SplitRebuilds(text[1..]);
      assert text == [text[0]] + text[1..];
      if IsSeparator(text[0]) {
        SplitRebuildsAtSeparator(text);
      } else if Separators(text) == [] {
        assert Split(text) == [[text[0]] + Split(text[1..])[0]];
      } else {
        SplitRebuildsInWord(text);
      }
    }
  }

  /** A leading separator: an empty first word, then the separator, then the rest rebuilt. */
  lemma SplitRebuildsAtSeparator(text: string)
    requires text != [] && IsSeparator(text[0])
    requires |Split(text[1..])| == |Separators(text[1..])| + 1
    requires Rejoin(Split(text[1..]), Separators(text[1..])) == text[1..]
    ensures Rejoin(Split(text), Separators(text)) == text
  {
    var rest, seps := Split(text[1..]), Separators(text[1..]);
    assert Split(text) == [""] + rest && Separators(text) == [text[0]] + seps;
    assert ([""] + rest)[1..] == rest && ([text[0]] + seps)[1..] == seps;
    assert text == [text[0]] + text[1..];
  }

  /** A leading word character, with a separator later on: it joins the first word. */
  lemma SplitRebuildsInWord(text: string)
    requires text != [] && !IsSeparator(text[0]) && Separators(text) != []
    requires |Split(text[1..])| == |Separators(text[1..])| + 1
    requires Rejoin(Split(text[1..]), Separators(text[1..])) == text[1..]
    ensures |Split(text)| == |Separators(text)| + 1
    ensures Rejoin(Split(text), Separators(text)) == text
  {
    var rest, seps := Split(text[1..]), Separators(text[1..]);
    assert Separators(text) == seps;
    var tail := Rejoin(rest[1..], seps[1..]);
    assert text[1..] == rest[0] + [seps[0]] + tail;
    var w := [text[0]] + rest[0];
    assert Split(text) == [w] + rest[1..];
    assert ([w] + rest[1..])[0] == w && ([w] + rest[1..])[1..] == rest[1..];
    assert Rejoin(Split(text), seps) == w + [seps[0]] + tail;
    PrependRegroup(text, rest[0], seps[0], tail);
  }

  lemma PrependRegroup(text: string, w: string, sep: char, tail: string)
    requires text != [] && text[1..] == w + [sep] + tail
    ensures text == [text[0]] + w + [sep] + tail
  {
    assert text == [text[0]] + text[1..];
  }

  lemma {:induction false} SplitWords(text: string)
    ensures forall i :: 0 <= i < |Split(text)| ==> NoSeparator(Split(text)[i])
  {
    if text != [] {
      var rest := Split(text[1..]);
      SplitWords(text[1..]);
      if !IsSeparator(text[0]) {
        forall i | 0 <= i < |Split(text)|
          ensures NoSeparator(Split(text)[i])
        {
          if i > 0 {
            assert Split(text)[i] == rest[i];
          }
        }
      }
    }
  }

  /** A text without separators is one word. */
  lemma {:induction false} SplitOfWord(w: string)
    requires NoSeparator(w)
    ensures Split(w) == [w]
  {
    if w != [] {
      assert NoSeparator(w[1..]) by {
        forall k | 0 <= k < |w[1..]| ensures !IsSeparator(w[1..][k]) {
          assert w[1..][k] == w[k + 1];
        }
      }
      SplitOfWord(w[1..]);
      assert w == [w[0]] + w[1..];
    }
  }

  /** A separator after a whole word closes it. */
  lemma {:induction false} SplitAfterWord(a: string, sep: char, rest: string)
    requires NoSeparator(a) && IsSeparator(sep)
    ensures Split(a + [sep] + rest) == [a] + Split(rest)
  {
    var t := a + [sep] + rest;
    if a == [] {
      assert t == [sep] + rest;
      assert t[1..] == rest;
    } else {
      assert NoSeparator(a[1..]) by {
        forall k | 0 <= k < |a[1..]| ensures !IsSeparator(a[1..][k]) {
          assert a[1..][k] == a[k + 1];
        }
      }
      SplitAfterWord(a[1..], sep, rest);
      assert t[1..] == a[1..] + [sep] + rest;
      assert t[0] == a[0];
      assert [a[0]] + a[1..] == a;
    }
  }

  lemma {:induction false} JoinLength(ws: seq<string>, sep: string)
    requires ws != []
    ensures |Join(ws, sep)| == SumLen(ws) + (|ws| - 1) * |sep|
  {
    if |ws| > 1 {
      JoinLength(ws[1..], sep);
    }
  }

  lemma {:induction false} RejoinLength(ws: seq<string>, seps: string)
    requires |ws| == |seps| + 1
    ensures |Rejoin(ws, seps)| == SumLen(ws) + |seps|
  {
    if seps != [] {
      RejoinLength(ws[1..], seps[1..]);
    }
  }

  lemma {:induction false} UpFirstAllLength(ws: seq<string>, tail: seq<string>)
    requires UpFirstAll(ws) == Ok(tail)
    ensures SumLen(tail) == SumLen(ws)
  {
    if ws != [] {
      assert UpFirstAll(ws[1..]) == Ok(tail[1..]);
      UpFirstAllLength(ws[1..], tail[1..]);
    }
  }

  lemma CamelizeJoiningLength(text: string, sep: string, r: string)
    requires CamelizeJoining(text, sep) == Ok(r)
    ensures |r| + |Separators(text)| == |text| + (|Split(text)| - 2) * |sep| + (if Separators(text) == [] then |sep| else 0)
  {
    var words := Split(text);
    SplitRejoin(text);
    RejoinLength(words, Separators(text));
    var tail := UpFirstAll(words[1..]).value;
    UpFirstAllLength(words[1..], tail);
    assert SumLen(words) == |words[0]| + SumLen(words[1..]);
    if tail != [] {
      JoinLength(tail, sep);
    }
  }

  /** As written, camel-casing removes the first separator only: every later one becomes a comma. */
  lemma CamelizeLength(text: string, r: string)
    requires Camelize(text) == Ok(r)
    ensures |r| == |text| - (if Separators(text) == [] then 0 else 1)
  {
    CamelizeOneCharJoiningLength(text, ",", r);
  }

  /** Joining with a one-character separator removes the first separator only. */
  lemma CamelizeOneCharJoiningLength(text: string, sep: string, r: string)
    requires |sep| == 1
    requires CamelizeJoining(text, sep) == Ok(r)
    ensures |r| == |text| - (if Separators(text) == [] then 0 else 1)
  {
    CamelizeJoiningLength(text, sep, r);
    SplitCount(text);
  }

  /** The intended camel-casing removes every separator. */
  lemma CamelizeIntendedLength(text: string, r: string)
    requires CamelizeIntended(text) == Ok(r)
    ensures |r| == |text| - |Separators(text)|
  {
    CamelizeJoiningLength(text, "", r);
  }

  /** A single word is just lower-cased. */
  lemma CamelizeOneWord(text: string)
    requires NoSeparator(text)
    ensures Camelize(text) == Ok(ToLower(text))
  {
    SplitOfWord(text);
    assert Split(text)[1..] == [];
    assert ToLower(text) + Join([], ",") == ToLower(text);
  }

  /** Two words: the second gets an upper-case first letter (`foo-bar` becomes `fooBar`). */
  lemma CamelizeTwoWords(a: string, sep: char, b: string)
    requires NoSeparator(a) && NoSeparator(b) && IsSeparator(sep) && b != []
    ensures Camelize(a + [sep] + b) == Ok(ToLower(a) + [UpperChar(b[0])] + ToLower(b)[1..])
  {
    CamelizeJoiningTwoWords(a, sep, b, ",");
  }

  /** Two words come out the same whatever the tail is joined with: the tail has one word. */
  lemma CamelizeJoiningTwoWords(a: string, sep: char, b: string, joiner: string)
    requires NoSeparator(a) && NoSeparator(b) && IsSeparator(sep) && b != []
    ensures CamelizeJoining(a + [sep] + b, joiner) == Ok(ToLower(a) + [UpperChar(b[0])] + ToLower(b)[1..])
  {
    var t := a + [sep] + b;
    SplitAfterWord(a, sep, b);
    SplitOfWord(b);
    assert Split(t) == [a] + [b];
    assert Split(t)[1..] == [b];
    var w := [UpperChar(b[0])] + ToLower(b)[1..];
    var tail := UpFirstAll([b]);
    assert UpFirst(b) == Ok(w);
    assert tail.Ok? && |tail.value| == 1 && tail.value[0] == w;
    assert tail.value == [w];
    assert Join([w], joiner) == w;
    assert ToLower(a) + w == ToLower(a) + [UpperChar(b[0])] + ToLower(b)[1..];
  }

  lemma CamelizeFooBar()
    ensures Camelize("foo-bar") == Ok("fooBar")
  {
    FooBarWords();
    CamelizeTwoWords("foo", '-', "bar");
    FooBarLower();
    assert "foo" + ['B'] + "bar"[1..] == "fooBar";
  }

  lemma FooBarWords()
    ensures "foo-bar" == "foo" + ['-'] + "bar"
    ensures NoSeparator("foo") && NoSeparator("bar")
  {
  }

  lemma FooBarLower()
    ensures ToLower("foo") == "foo" && ToLower("bar") == "bar" && UpperChar('b') == 'B'
  {
    assert LowerWord("foo") && LowerWord("bar");
    ToLowerOfLower("foo");
    ToLowerOfLower("bar");
  }

  /** Words without separators, rejoined with separators, split back into the same words. */
  lemma {:induction false} SplitOfRejoin(words: seq<string>, seps: string)
    requires |words| == |seps| + 1
    requires forall i :: 0 <= i < |words| ==> NoSeparator(words[i])
    requires forall k :: 0 <= k < |seps| ==> IsSeparator(seps[k])
    ensures Split(Rejoin(words, seps)) == words
  {
    if seps == [] {
      SplitOfWord(words[0]);
      assert words == [words[0]];
    } else {
      SplitOfRejoin(words[1..], seps[1..]);
      SplitAfterWord(words[0], seps[0], Rejoin(words[1..], seps[1..]));
      assert words == [words[0]] + words[1..];
    }
  }

  predicate LowerWord(w: string) {
    forall k :: 0 <= k < |w| ==> 'a' <= w[k] <= 'z'
  }

  lemma {:induction false} ToLowerOfLower(w: string)
    requires LowerWord(w)
    ensures ToLower(w) == w
  {
    if w != [] {
      assert LowerWord(w[1..]) by {
        forall k | 0 <= k < |w[1..]| ensures 'a' <= w[1..][k] <= 'z' {
          assert w[1..][k] == w[k + 1];
        }
      }
      ToLowerOfLower(w[1..]);
      assert w == [w[0]] + w[1..];
    }
  }

  function Capitalized(ws: seq<string>): (r: seq<string>)
    ensures |r| == |ws|
  {
    if ws == [] then []
    else [if ws[0] == [] then [] else [UpperChar(ws[0][0])] + ws[0][1..]] + Capitalized(ws[1..])
  }

  /** Camel-casing lower-case words joined by separators. */
  lemma {:induction false} UpFirstAllOfLower(ws: seq<string>)
    requires forall i :: 0 <= i < |ws| ==> ws[i] != [] && LowerWord(ws[i])
    ensures UpFirstAll(ws) == Ok(Capitalized(ws))
  {
    if ws != [] {
      ToLowerOfLower(ws[0]);
      UpFirstAllOfLower(ws[1..]);
    }
  }

  lemma CamelizeOfLowerWords(sep: string, words: seq<string>, seps: string)
    requires |words| == |seps| + 1
    requires forall i :: 0 <= i < |words| ==> words[i] != [] && LowerWord(words[i])
    requires forall k :: 0 <= k < |seps| ==> IsSeparator(seps[k])
    ensures CamelizeJoining(Rejoin(words, seps), sep) == Ok(words[0] + Join(Capitalized(words[1..]), sep))
  {
    forall i | 0 <= i < |words| ensures NoSeparator(words[i]) {
      assert forall k :: 0 <= k < |words[i]| ==> 'a' <= words[i][k] <= 'z';
    }
    SplitOfRejoin(words, seps);
    UpFirstAllOfLower(words[1..]);
    ToLowerOfLower(words[0]);
  }

  lemma JoinedDoNotDoIt()
    ensures "do" + Join(["Not", "Do", "It"], ",") == "doNot,Do,It"
    ensures "do" + Join(["Not", "Do", "It"], "") == "doNotDoIt"
  {
  }

  lemma JoinedIncludeTypeArguments()
    ensures "include" + Join(["Type", "Arguments"], ",") == "includeType,Arguments"
  {
  }

  lemma JoinedIncludeTypeArgumentsIntended()
    ensures "include" + Join(["Type", "Arguments"], "") == "includeTypeArguments"
  {
  }

  lemma RejoinThree(a: string, b: string, c: string, s1: char, s2: char)
    ensures Rejoin([a, b, c], [s1, s2]) == a + [s1] + (b + [s2] + c)
  {
    assert [a, b, c][1..] == [b, c] && [b, c][1..] == [c];
    assert [s1, s2][1..] == [s2] && [s2][1..] == [];
    assert Rejoin([c], []) == c;
    assert Rejoin([b, c], [s2]) == b + [s2] + c;
  }

  lemma RejoinFour(a: string, b: string, c: string, d: string, s1: char, s2: char, s3: char)
    ensures Rejoin([a, b, c, d], [s1, s2, s3]) == a + [s1] + (b + [s2] + (c + [s3] + d))
  {
    assert [a, b, c, d][1..] == [b, c, d];
    assert [s1, s2, s3][1..] == [s2, s3];
    RejoinThree(b, c, d, s2, s3);
  }

  /** Three non-empty lower-case words, listed. */
  lemma LowerWordsThree(a: string, b: string, c: string)
    requires a != [] && b != [] && c != [] && LowerWord(a) && LowerWord(b) && LowerWord(c)
    ensures forall i :: 0 <= i < |[a, b, c]| ==> [a, b, c][i] != [] && LowerWord([a, b, c][i])
  {
  }

  /** Four non-empty lower-case words, listed. */
  lemma LowerWordsFour(a: string, b: string, c: string, d: string)
    requires a != [] && b != [] && c != [] && d != []
    requires LowerWord(a) && LowerWord(b) && LowerWord(c) && LowerWord(d)
    ensures forall i :: 0 <= i < |[a, b, c, d]| ==> [a, b, c, d][i] != [] && LowerWord([a, b, c, d][i])
  {
  }

  /** `do-not-do-it` is its four words rejoined by its three dashes. */
  lemma DoNotDoItRejoined(text: string, words: seq<string>)
    requires text == "do-not-do-it" && words == ["do", "not", "do", "it"]
    ensures Rejoin(words, "---") == text
  {
    RejoinFour("do", "not", "do", "it", '-', '-', '-');
    assert "do-not-do-it" == "do" + ['-'] + ("not" + ['-'] + ("do" + ['-'] + "it"));
  }

  /** The words of `do-not-do-it` are non-empty and lower-case. */
  lemma DoNotDoItLower(words: seq<string>)
    requires words == ["do", "not", "do", "it"]
    ensures forall i :: 0 <= i < |words| ==> words[i] != [] && LowerWord(words[i])
  {
    assert LowerWord("do") && LowerWord("not") && LowerWord("it");
    LowerWordsFour("do", "not", "do", "it");
  }

  /** The capitalised form of one non-empty word. */
  function CapitalWord(w: string): (r: string)
    requires w != []
    ensures |r| == |w| && r[0] == UpperChar(w[0]) && r[1..] == w[1..]
  {
    [UpperChar(w[0])] + w[1..]
  }

  lemma CapitalizedTwo(a: string, b: string)
    requires a != [] && b != []
    ensures Capitalized([a, b]) == [CapitalWord(a), CapitalWord(b)]
  {
    assert [a, b][1..] == [b] && [b][1..] == [];
  }

  lemma CapitalizedThree(a: string, b: string, c: string)
    requires a != [] && b != [] && c != []
    ensures Capitalized([a, b, c]) == [CapitalWord(a), CapitalWord(b), CapitalWord(c)]
  {
    assert [a, b, c][1..] == [b, c];
    CapitalizedTwo(b, c);
  }

  lemma CapitalizedNotDoIt(ws: seq<string>)
    requires ws == ["not", "do", "it"]
    ensures Capitalized(ws) == ["Not", "Do", "It"]
  {
    CapitalizedThree("not", "do", "it");
    assert CapitalWord("not") == "Not" && CapitalWord("do") == "Do" && CapitalWord("it") == "It";
  }

  /** `do-not-do-it` becomes `doNot,Do,It`, not the documented `doNotDoIt`. */
  lemma CamelizeDoNotDoIt(text: string)
    requires text == "do-not-do-it"
    ensures Camelize(text) == Ok("doNot,Do,It")
    ensures CamelizeIntended(text) == Ok("doNotDoIt")
  {
    var words := ["do", "not", "do", "it"];
    DoNotDoItRejoined(text, words);
    DoNotDoItLower(words);
    CamelizeOfLowerWords(",", words, "---");
    CamelizeOfLowerWords("", words, "---");
    CapitalizedNotDoIt(words[1..]);
    JoinedDoNotDoIt();
  }

  /** `include-type-arguments` is its three words rejoined by its two dashes. */
  lemma IncludeTypeArgumentsRejoined(text: string, words: seq<string>)
    requires text == "include-type-arguments" && words == ["include", "type", "arguments"]
    ensures Rejoin(words, "--") == text
  {
    RejoinThree("include", "type", "arguments", '-', '-');
    assert "include-type-arguments" == "include" + ['-'] + ("type" + ['-'] + "arguments");
  }

  /** The words of `include-type-arguments` are non-empty and lower-case. */
  lemma IncludeTypeArgumentsLower(words: seq<string>)
    requires words == ["include", "type", "arguments"]
    ensures forall i :: 0 <= i < |words| ==> words[i] != [] && LowerWord(words[i])
  {
    assert LowerWord("include") && LowerWord("type") && LowerWord("arguments");
    LowerWordsThree("include", "type", "arguments");
  }

  lemma CapitalizedTypeArguments(ws: seq<string>)
    requires ws == ["type", "arguments"]
    ensures Capitalized(ws) == ["Type", "Arguments"]
  {
    CapitalizedTwo("type", "arguments");
    assert CapitalWord("type") == "Type" && CapitalWord("arguments") == "Arguments";
  }

  /** `include-type-arguments` becomes `includeType,Arguments`, not the documented `includeTypeArguments`. */
  lemma CamelizeIncludeTypeArguments(text: string)
    requires text == "include-type-arguments"
    ensures Camelize(text) == Ok("includeType,Arguments")
    ensures CamelizeIntended(text) == Ok("includeTypeArguments")
  {
    var words := ["include", "type", "arguments"];
    IncludeTypeArgumentsRejoined(text, words);
    IncludeTypeArgumentsLower(words);
    CamelizeOfLowerWords(",", words, "--");
    CamelizeOfLowerWords("", words, "--");
    CapitalizedTypeArguments(words[1..]);
    JoinedIncludeTypeArguments();
    JoinedIncludeTypeArgumentsIntended();
  }

  /** With at most one separator the code and the documented behaviour agree. */
  lemma CamelizeAgreesUpToTwoWords(text: string)
    requires |Separators(text)| <= 1
    ensures Camelize(text) == CamelizeIntended(text)
  {
    SplitRejoin(text);
  }

  /** The separator at `k` ends the text or is followed by another separator. */
  predicate EmptyAfter(text: string, k: int)
    requires 0 <= k < |text|
  {
    IsSeparator(text[k]) && (k + 1 == |text| || IsSeparator(text[k + 1]))
  }

  /** Some word after the first is empty: a separator at the end or right before another one. */
  predicate EmptyLaterWord(text: string) {
    exists k :: 0 <= k < |text| && EmptyAfter(text, k)
  }

  lemma {:induction false} EmptyWordHasCause(text: string, i: int)
    requires 1 <= i < |Split(text)| && Split(text)[i] == []
    ensures EmptyLaterWord(text)
  {
    var rest := text[1..];
    var r := Split(rest);
    if IsSeparator(text[0]) {
      assert Split(text) == [""] + r;
      assert r[i - 1] == [];
      if i == 1 {
        assert EmptyAfter(text, 0);
      } else {
        EmptyWordHasCause(rest, i - 1);
        var k :| 0 <= k < |rest| && EmptyAfter(rest, k);
        assert EmptyAfter(text, k + 1);
      }
    } else {
      assert Split(text) == [[text[0]] + r[0]] + r[1..];
      assert r[i] == [];
      EmptyWordHasCause(rest, i);
      var k :| 0 <= k < |rest| && EmptyAfter(rest, k);
      assert EmptyAfter(text, k + 1);
    }
  }

  lemma {:induction false} CauseGivesEmptyWord(text: string, k: int)
    requires 0 <= k < |text| && EmptyAfter(text, k)
    ensures exists i :: 1 <= i < |Split(text)| && Split(text)[i] == []
  {
    var rest := text[1..];
    var r := Split(rest);
    if k == 0 {
      assert Split(text) == [""] + r;
      assert Split(text)[1] == r[0];
    } else {
      assert EmptyAfter(rest, k - 1);
      CauseGivesEmptyWord(rest, k - 1);
      var i :| 1 <= i < |r| && r[i] == [];
      if IsSeparator(text[0]) {
        assert Split(text) == [""] + r;
        assert Split(text)[i + 1] == r[i];
      } else {
        assert Split(text) == [[text[0]] + r[0]] + r[1..];
        assert Split(text)[i] == r[i];
      }
    }
  }

  /** Camel-casing throws exactly when a later word is empty (`a--b`, `a-`). */
  lemma CamelizeFailsOnEmptyWord(text: string)
    ensures Camelize(text).Err? <==> EmptyLaterWord(text)
    ensures CamelizeIntended(text).Err? <==> EmptyLaterWord(text)
  {
    var words := Split(text);
    if EmptyLaterWord(text) {
      var k :| 0 <= k < |text| && EmptyAfter(text, k);
      CauseGivesEmptyWord(text, k);
      var i :| 1 <= i < |words| && words[i] == [];
      assert words[1..][i - 1] == [];
    }
    if UpFirstAll(words[1..]).Err? {
      var i :| 0 <= i < |words[1..]| && words[1..][i] == [];
      EmptyWordHasCause(text, i + 1);
    }
  }

  lemma {:induction false} JoinHasCommaAfterFirst(ws: seq<string>)
    requires |ws| >= 2
    ensures |ws[0]| < |Join(ws, ",")| && Join(ws, ",")[|ws[0]|] == ','
  {
  }

  /**
   * As written, an upper-case letter in a comma-free result can only be the first letter of the
   * second word: there is at most one.
   */
  lemma CamelizeUpperOnlyAtSecondWord(text: string, r: string)
    requires Camelize(text) == Ok(r) && ',' !in r
    ensures forall k :: 0 <= k < |r| && IsUpper(r[k]) ==> k == |Split(text)[0]|
  {
    var words := Split(text);
    var tail := UpFirstAll(words[1..]).value;
    var head := ToLower(words[0]);
    assert r == head + Join(tail, ",");
    if |tail| >= 2 {
      JoinHasCommaAfterFirst(tail);
      assert false;
    }
    if |tail| == 1 {
      var w := words[1..][0];
      assert UpFirst(w) == Ok(tail[0]);
      assert r == head + [UpperChar(w[0])] + ToLower(w)[1..];
    }
  }

  /** As written, no comma-free result holds two upper-case letters. */
  lemma CamelizeAtMostOneUpper(text: string, r: string, a: nat, b: nat)
    requires ',' !in r && a < b < |r| && IsUpper(r[a]) && IsUpper(r[b])
    ensures Camelize(text) != Ok(r)
  {
    if Camelize(text) == Ok(r) {
      CamelizeUpperOnlyAtSecondWord(text, r);
    }
  }

  /** As written, no argument ever camel-cases to `includeTypeArguments`. */
  lemma CamelizeNeverIncludeTypeArguments(text: string)
    ensures Camelize(text) != Ok("includeTypeArguments")
  {
    var r := "includeTypeArguments";
    assert ',' !in r && IsUpper(r[7]) && IsUpper(r[11]);
    CamelizeAtMostOneUpper(text, r, 7, 11);
  }

  // ---- the option fold ----

  lemma {:induction false} ParseAppend(camel: Camel, options: OptionsMap, args: seq<Json>, x: Json)
    decreases |args|
    ensures ParseFrom(camel, options, args + [x]) ==
      match ParseFrom(camel, options, args)
      case Err(e) => Err(e)
      case Ok(m) => Step(camel, m, x)
  {
    if args == [] {
      assert [] + [x] == [x];
    } else {
      assert (args + [x])[0] == args[0] && (args + [x])[1..] == args[1..] + [x];
      match Step(camel, options, args[0])
      case Err(e) =>
      case Ok(next) => ParseAppend(camel, next, args[1..], x);
    }
  }

  /** A string argument sets its camel-cased key to `true`, overriding, and changes nothing else. */
  lemma StringArgumentSetsTrue(camel: Camel, args: seq<Json>, s: string, m: OptionsMap)
    requires ParseOptionsWith(camel, args + [JString(s)]) == Ok(m)
    ensures ParseOptionsWith(camel, args).Ok? && camel(s).Ok?
    ensures m == ParseOptionsWith(camel, args).value[camel(s).value := JBool(true)]
  {
    ParseAppend(camel, map[], args, JString(s));
  }

  /** An object argument's camel-cased entries are merged over the options parsed so far. */
  lemma ObjectArgumentMerges(camel: Camel, args: seq<Json>, entries: seq<(string, Json)>, m: OptionsMap)
    requires ParseOptionsWith(camel, args + [JObject(entries)]) == Ok(m)
    ensures ParseOptionsWith(camel, args).Ok? && CamelizeEntries(camel, map[], entries).Ok?
    ensures m == ParseOptionsWith(camel, args).value + CamelizeEntries(camel, map[], entries).value
  {
    ParseAppend(camel, map[], args, JObject(entries));
  }

  /** Arguments that are neither strings nor objects change nothing. */
  lemma OtherArgumentsIgnored(camel: Camel, args: seq<Json>, x: Json)
    requires x.JUndefined? || x.JBool? || x.JNumber?
    ensures ParseOptionsWith(camel, args + [x]) == ParseOptionsWith(camel, args)
  {
    ParseAppend(camel, map[], args, x);
  }

  /** `null` is an object to `typeof`, and `Object.keys(null)` throws. */
  lemma NullArgumentThrows(camel: Camel, args: seq<Json>)
    ensures ParseOptionsWith(camel, args + [JNull]).Err?
  {
    ParseAppend(camel, map[], args, JNull);
  }

  predicate LastWithKey(camel: Camel, entries: seq<(string, Json)>, i: int)
    requires 0 <= i < |entries|
  {
    forall j :: i < j < |entries| ==> camel(entries[j].0) != camel(entries[i].0)
  }

  /**
   * The object loop: every key camel-cases, the keys are those already present plus the
   * camel-cased ones, the last entry for a key supplies its value unchanged, and keys no entry
   * produces keep their values.
   */
  lemma {:induction false} CamelizeEntriesCopies(camel: Camel, o2: OptionsMap, entries: seq<(string, Json)>, r: OptionsMap)
    requires CamelizeEntries(camel, o2, entries) == Ok(r)
    decreases |entries|
    ensures forall i :: 0 <= i < |entries| ==> camel(entries[i].0).Ok?
    ensures forall i :: 0 <= i < |entries| && LastWithKey(camel, entries, i) ==>
      camel(entries[i].0).value in r && r[camel(entries[i].0).value] == entries[i].1
    ensures forall k :: k in r <==> k in o2 || exists i :: 0 <= i < |entries| && camel(entries[i].0) == Ok(k)
    ensures forall k :: k in o2 && (forall i :: 0 <= i < |entries| ==> camel(entries[i].0) != Ok(k)) ==>
      r[k] == o2[k]
  {
    if entries != [] {
      var k0 := camel(entries[0].0).value;
      var rest := entries[1..];
      var o2' := o2[k0 := entries[0].1];
      CamelizeEntriesCopies(camel, o2', rest, r);
      assert forall i :: 1 <= i < |entries| ==> entries[i] == rest[i - 1];
      forall i | 0 <= i < |entries| && LastWithKey(camel, entries, i)
        ensures camel(entries[i].0).value in r && r[camel(entries[i].0).value] == entries[i].1
      {
        if i == 0 {
          forall j | 0 <= j < |rest| ensures camel(rest[j].0) != Ok(k0) {
            assert rest[j] == entries[j + 1];
          }
        } else {
          assert LastWithKey(camel, rest, i - 1) by {
            forall j | i - 1 < j < |rest| ensures camel(rest[j].0) != camel(rest[i - 1].0) {
              assert rest[j] == entries[j + 1];
            }
          }
        }
      }
      forall k ensures k in r <==> k in o2 || exists i :: 0 <= i < |entries| && camel(entries[i].0) == Ok(k) {
        if exists i :: 0 <= i < |rest| && camel(rest[i].0) == Ok(k) {
          var i :| 0 <= i < |rest| && camel(rest[i].0) == Ok(k);
          assert entries[i + 1] == rest[i];
        }
      }
      forall k | k in o2 && (forall i :: 0 <= i < |entries| ==> camel(entries[i].0) != Ok(k))
        ensures r[k] == o2[k]
      {
        forall j | 0 <= j < |rest| ensures camel(rest[j].0) != Ok(k) {
          assert rest[j] == entries[j + 1];
        }
      }
    }
  }

  /** Every key `parseOptions` produces is the camel-casing of some text. */
  lemma {:induction false} ParsedKeysAreCamelCased(camel: Camel, options: OptionsMap, args: seq<Json>, m: OptionsMap)
    requires ParseFrom(camel, options, args) == Ok(m)
    requires forall k :: k in options ==> exists t :: camel(t) == Ok(k)
    decreases |args|
    ensures forall k :: k in m ==> exists t :: camel(t) == Ok(k)
  {
    if args != [] {
      var next := Step(camel, options, args[0]).value;
      match args[0]
      case JObject(entries) =>
        var o2 := CamelizeEntries(camel, map[], entries).value;
        CamelizeEntriesCopies(camel, map[], entries, o2);
        forall k | k in o2 ensures exists t :: camel(t) == Ok(k) {
          var i :| 0 <= i < |entries| && camel(entries[i].0) == Ok(k);
        }
        ParsedKeysAreCamelCased(camel, next, args[1..], m);
      case JArray(items) =>
        var entries := ArrayEntries(items, 0);
        var o2 := CamelizeEntries(camel, map[], entries).value;
        CamelizeEntriesCopies(camel, map[], entries, o2);
        forall k | k in o2 ensures exists t :: camel(t) == Ok(k) {
          var i :| 0 <= i < |entries| && camel(entries[i].0) == Ok(k);
        }
        ParsedKeysAreCamelCased(camel, next, args[1..], m);
      case JNull =>
      case _ =>
        ParsedKeysAreCamelCased(camel, next, args[1..], m);
    }
  }

  /** As written, `parseOptions` never sets `includeTypeArguments`, whatever the arguments. */
  lemma IncludeTypeArgumentsNeverParsed(args: seq<Json>, m: OptionsMap)
    requires ParseOptionsSpec(args) == Ok(m)
    ensures !Flag(m, "includeTypeArguments")
  {
    ParsedKeysAreCamelCased(Camelize, map[], args, m);
    if "includeTypeArguments" in m {
      var t :| Camelize(t) == Ok("includeTypeArguments");
      CamelizeNeverIncludeTypeArguments(t);
    }
  }

  lemma CamelizeDeep(deep: string)
    requires deep == "deep"
    ensures Camelize(deep) == Ok(deep) && CamelizeIntended(deep) == Ok(deep)
  {
    assert NoSeparator(deep) && LowerWord(deep);
    CamelizeOneWord(deep);
    ToLowerOfLower(deep);
    SplitOfWord(deep);
    SplitRejoin(deep);
    CamelizeAgreesUpToTwoWords(deep);
  }

  /** Parsing two string arguments sets their camel-cased keys to `true`. */
  lemma ParseTwoStrings(camel: Camel, args: seq<Json>, k1: string, k2: string)
    requires |args| == 2 && args[0].JString? && args[1].JString?
    requires camel(args[0].s) == Ok(k1) && camel(args[1].s) == Ok(k2)
    ensures ParseOptionsWith(camel, args) == Ok(map[k1 := JBool(true), k2 := JBool(true)])
  {
    var m1 := map[k1 := JBool(true)];
    assert Step(camel, map[], args[0]) == Ok(m1);
    var rest := args[1..];
    assert rest[0] == args[1] && rest[1..] == [];
    assert ParseFrom(camel, m1, rest) == Ok(m1[k2 := JBool(true)]);
  }

  /**
   * The shipped configuration `["include-type-arguments", "deep"]`: as written it sets
   * `includeType,Arguments`; with the documented camel-casing it sets `includeTypeArguments`.
   */
  lemma ShippedConfiguration(args: seq<Json>)
    requires args == [JString("include-type-arguments"), JString("deep")]
    ensures ParseOptionsSpec(args) == Ok(map["includeType,Arguments" := JBool(true), "deep" := JBool(true)])
    ensures ParseOptionsWith(CamelizeIntended, args) ==
      Ok(map["includeTypeArguments" := JBool(true), "deep" := JBool(true)])
  {
    CamelizeIncludeTypeArguments(args[0].s);
    CamelizeDeep(args[1].s);
    ParseTwoStrings(Camelize, args, "includeType,Arguments", "deep");
    ParseTwoStrings(CamelizeIntended, args, "includeTypeArguments", "deep");
  }
}
