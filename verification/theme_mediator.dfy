/**
 * The two pieces of the theme mediator that are not Swing side effects: the
 * font recommended for the interface language, and the list of observers
 * notified when the theme changes.
 */
module ThemeMediator {

  import opened Results
  import opened JavaStrings

  // ---------------------------------------------------------------------
  // getRecommendedFontName

  /** Language prefixes with their recommended fonts, in the order the prefixes are tried. */
  const FontTable: seq<(string, string)> := [
    ("ja", "Meiryo"),
    ("ko", "Malgun Gothic"),
    ("zh", "Microsoft JhengHei"),
    ("he", "Gisha"),
    ("th", "Leelawadee")
  ]

  /**
   * `getRecommendedFontName()`, with the configured language passed in:
   * a font for Japanese, Korean, Chinese, Hebrew and Thai, matched by
   * prefix; `None` (Java's `null`) otherwise.
   */
  function RecommendedFontName(language: Option<string>): (r: Option<string>)
    ensures language == None ==> r == None
    ensures r != None <==> language != None && exists e :: e in FontTable && StartsWith(language.value, e.0)
  {
    match language
    case None => None
    case Some(lang) =>
      if StartsWith(lang, "ja") then Some("Meiryo")
      else if StartsWith(lang, "ko") then Some("Malgun Gothic")
      else if StartsWith(lang, "zh") then Some("Microsoft JhengHei")
      else if StartsWith(lang, "he") then Some("Gisha")
      else if StartsWith(lang, "th") then Some("Leelawadee")
      else None
  }

  /** The font of the first entry whose prefix starts `lang`. */
  function LookupFont(lang: string, table: seq<(string, string)>): Option<string> {
    if table == [] then None
    else if StartsWith(lang, table[0].0) then Some(table[0].1)
    else LookupFont(lang, table[1..])
  }

  /** The chain of tests agrees with a first-match lookup in the table. */
  lemma FontNameFollowsTable(lang: string)
    ensures RecommendedFontName(Some(lang)) == LookupFont(lang, FontTable)
  {
    var t1 := FontTable[1..];
    var t2 := t1[1..];
    var t3 := t2[1..];
    var t4 := t3[1..];
    assert t4 == [("th", "Leelawadee")] && t4[1..] == [];
    assert LookupFont(lang, t4) == RecommendedFontName(Some(lang)) || StartsWith(lang, "ja")
      || StartsWith(lang, "ko") || StartsWith(lang, "zh") || StartsWith(lang, "he");
    assert LookupFont(lang, t3) == RecommendedFontName(Some(lang)) || StartsWith(lang, "ja")
      || StartsWith(lang, "ko") || StartsWith(lang, "zh");
    assert LookupFont(lang, t2) == RecommendedFontName(Some(lang)) || StartsWith(lang, "ja")
      || StartsWith(lang, "ko");
    assert LookupFont(lang, t1) == RecommendedFontName(Some(lang)) || StartsWith(lang, "ja");
  }

  /** Every language written as a table prefix plus anything gets that prefix's font. */
  lemma {:induction false} PrefixDecidesFont(i: nat, rest: string)
    requires i < |FontTable|
    ensures RecommendedFontName(Some(FontTable[i].0 + rest)) == Some(FontTable[i].1)
  {
    var lang := FontTable[i].0 + rest;
    assert lang[..2] == FontTable[i].0;
    FontNameFollowsTable(lang);
    assert forall j :: 0 <= j < |FontTable| && j != i ==> FontTable[j].0 != lang[..2];
  }

  /** Every Chinese variant ("zh", "zh_CN", "zh_TW", ...) gets the same font. */
  lemma EveryChineseVariant(rest: string)
    ensures RecommendedFontName(Some("zh" + rest)) == Some("Microsoft JhengHei")
  {
    PrefixDecidesFont(2, rest);
  }

  // ---------------------------------------------------------------------
  // addThemeObserver / removeThemeObserver on the observer list

  /** `THEME_OBSERVERS.add(observer)`: appended at the end, duplicates allowed. */
  function AddThemeObserver<T>(observers: seq<T>, observer: T): (r: seq<T>)
    ensures |r| == |observers| + 1
    ensures r[..|observers|] == observers && r[|observers|] == observer
  {
    observers + [observer]
  }

  /** Where `x` first appears in `s`. */
  function FirstIndex<T(==)>(s: seq<T>, x: T): (i: nat)
    requires x in s
    ensures i < |s| && s[i] == x && x !in s[..i]
  {
    if s[0] == x then 0 else 1 + FirstIndex(s[1..], x)
  }

  /** `THEME_OBSERVERS.remove(observer)`: drops the first equal entry only. */
  function RemoveThemeObserver<T(==)>(observers: seq<T>, observer: T): (r: seq<T>)
    ensures observer !in observers ==> r == observers
    ensures observer in observers ==> |r| == |observers| - 1
  {
    if observers == [] then []
    else if observers[0] == observer then observers[1..]
    else [observers[0]] + RemoveThemeObserver(observers[1..], observer)
  }

  /** Removal cuts out exactly the first equal entry and keeps the rest in order. */
  lemma {:induction false} RemoveCutsFirstOccurrence<T>(observers: seq<T>, observer: T)
    requires observer in observers
    ensures var i := FirstIndex(observers, observer);
      RemoveThemeObserver(observers, observer) == observers[..i] + observers[i + 1..]
  {
    if observers[0] != observer {
      var rest := observers[1..];
      assert observer in rest by {
        assert observers == [observers[0]] + rest;
      }
      RemoveCutsFirstOccurrence(rest, observer);
      var j := FirstIndex(rest, observer);
      assert observers[..j + 1] == [observers[0]] + rest[..j];
      assert observers[j + 2..] == rest[j + 1..];
    }
  }

  /** Removal takes away one copy of the observer, if there is one, and nothing else. */
  lemma RemoveDropsOneCopy<T>(observers: seq<T>, observer: T)
    ensures multiset(RemoveThemeObserver(observers, observer)) == multiset(observers) - multiset{observer}
  {
    if observer in observers {
      var i := FirstIndex(observers, observer);
      var before, after := observers[..i], observers[i + 1..];
      assert RemoveThemeObserver(observers, observer) == before + after by {
        RemoveCutsFirstOccurrence(observers, observer);
      }
      assert observers == before + [observer] + after;
      MultisetCut(observers, RemoveThemeObserver(observers, observer), before, observer, after);
    } else {
      assert multiset(observers)[observer] == 0;
      assert multiset(observers) - multiset{observer} == multiset(observers);
    }
  }

  lemma MultisetCut<T>(s: seq<T>, r: seq<T>, a: seq<T>, x: T, b: seq<T>)
    requires s == a + [x] + b && r == a + b
    ensures multiset(r) == multiset(s) - multiset{x}
  {
    assert multiset(a + [x] + b) == multiset(a) + multiset{x} + multiset(b);
    assert multiset(a + b) == multiset(a) + multiset(b);
  }

  /** Removing an observer that was just added, and not there before, restores the list. */
  lemma {:induction false} RemoveUndoesAdd<T>(observers: seq<T>, observer: T)
    requires observer !in observers
    ensures RemoveThemeObserver(AddThemeObserver(observers, observer), observer) == observers
  {
    var added := AddThemeObserver(observers, observer);
    if observers == [] {
      assert added == [observer];
    } else {
      RemoveUndoesAdd(observers[1..], observer);
      assert added == [observers[0]] + AddThemeObserver(observers[1..], observer);
      assert added[1..] == AddThemeObserver(observers[1..], observer);
    }
  }

  /** A duplicate registration survives one removal. */
  lemma RemoveKeepsDuplicate<T>(observers: seq<T>, observer: T)
    ensures observer in RemoveThemeObserver(observers + [observer, observer], observer)
  {
    var r := RemoveThemeObserver(observers + [observer, observer], observer);
    RemoveDropsOneCopy(observers + [observer, observer], observer);
    assert multiset(observers + [observer, observer])[observer] >= 2;
    assert multiset(r)[observer] >= 1;
  }
}
