/**
 * The text getters of a ClearBits search result. A result wraps an item
 * whose title may carry `<b>`/`</b>` highlight tags from the search engine.
 */
module ClearBitsSearchResult {

  import opened JavaStrings

  const BoldOpen := "<b>"
  const BoldClose := "</b>"

  /** `Integer.MAX_VALUE`. */
  const JavaIntMax := 0x7fff_ffff

  /** `getExtension()`. */
  function GetExtension(): string {
    "torrent"
  }

  /** `getHost()`. */
  function GetHost(): string {
    "http://www.clearbits.net/"
  }

  /** `getSpeed()`: just below the largest Java `int`. */
  function GetSpeed(): int {
    JavaIntMax - 2
  }

  /** `getSecureStatus()`. */
  function GetSecureStatus(): int {
    0
  }

  /** The fixed answers of the getters: the speed is `2147483645`, two below the largest `int`. */
  lemma ConstantGetters()
    ensures GetExtension() == "torrent" && GetHost() == "http://www.clearbits.net/"
    ensures GetSpeed() == 2147483645 && GetSpeed() < JavaIntMax && GetSecureStatus() == 0
  {
  }

  /** `title.replace("<b>", "").replace("</b>", "")`: one pass per tag, opening tag first. */
  function StripBold(title: string): string {
    ReplaceAll(ReplaceAll(title, BoldOpen, ""), BoldClose, "")
  }

  /** Stripping never lengthens a title, and leaves a title without tags as it is. */
  lemma StripBoldShortens(title: string)
    ensures |StripBold(title)| <= |title|
    ensures !Contains(title, BoldOpen) && !Contains(title, BoldClose) ==> StripBold(title) == title
  {
    var once := ReplaceAll(title, BoldOpen, "");
    ReplaceAllLength(title, BoldOpen, "");
    ReplaceAllLength(once, BoldClose, "");
  }

  /** `getFileName()`: the title without highlight tags, named as a torrent file. */
  function GetFileName(title: string): (r: string)
    ensures EndsWith(r, ".torrent")
    ensures r[..|r| - 8] == StripBold(title)
    ensures |r| <= |title| + 8
    ensures !Contains(title, BoldOpen) && !Contains(title, BoldClose) ==> r == title + ".torrent"
  {
    StripBoldShortens(title);
    StripBold(title) + ".torrent"
  }

  /** The file name is the stripped title followed by `"." + getExtension()`. */
  lemma FileNameCarriesExtension(title: string)
    ensures EndsWith(GetFileName(title), "." + GetExtension())
    ensures GetFileName(title) == StripBold(title) + "." + GetExtension()
  {
    var stripped := StripBold(title);
    assert GetFileName(title) == stripped + ".torrent";
    assert "." + GetExtension() == ".torrent";
    assert stripped + "." + GetExtension() == stripped + ("." + GetExtension());
  }

  /** A title the search engine highlighted as a whole loses exactly the two tags. */
  lemma HighlightStripped(t: string)
    requires !Contains(t, BoldOpen) && !Contains(t, BoldClose)
    ensures GetFileName(BoldOpen + t + BoldClose) == t + ".torrent"
  {
    var h := BoldOpen + t + BoldClose;
    assert StripBold(h) == t by {
      assert h == BoldOpen + (t + BoldClose);
      ReplaceAllAtFront(BoldOpen, t + BoldClose, "");
      OpenPassKeepsClosingTag(t);
      assert ReplaceAll(h, BoldOpen, "") == t + BoldClose;
      ClosePassDropsClosingTag(t);
    }
    FileNameCarriesExtension(h);
    assert t + "." + GetExtension() == t + ".torrent";
  }

  /** The `<b>` pass leaves a tag-free text and its closing tag alone: no `<b>` can straddle them. */
  lemma OpenPassKeepsClosingTag(t: string)
    requires !Contains(t, BoldOpen)
    ensures ReplaceAll(t + BoldClose, BoldOpen, "") == t + BoldClose
  {
    var u := t + BoldClose;
    forall p | 0 <= p < |t|
      ensures !OccursAt(u, BoldOpen, p)
    {
      if p + 3 <= |t| {
        assert u[p..p + 3] == t[p..p + 3];
        assert !OccursAt(t, BoldOpen, p);
      } else if p + 3 <= |u| {
        assert u[p..p + 3][2] == BoldClose[p + 2 - |t|];
      }
    }
    ReplaceAllPassesOver(t, BoldClose, BoldOpen, "");
    assert !Contains(BoldClose, BoldOpen) by {
      forall i | 0 <= i <= |BoldClose|
        ensures !OccursAt(BoldClose, BoldOpen, i)
      {
        if i + 3 <= |BoldClose| {
          assert BoldClose[i..i + 3][0] != BoldOpen[0] || BoldClose[i..i + 3][1] != BoldOpen[1];
        }
      }
    }
  }

  /** The `</b>` pass removes only the final closing tag: none starts earlier, since `</b>` has no border. */
  lemma ClosePassDropsClosingTag(t: string)
    requires !Contains(t, BoldClose)
    ensures ReplaceAll(t + BoldClose, BoldClose, "") == t
  {
    var u := t + BoldClose;
    forall p | 0 <= p < |t|
      ensures !OccursAt(u, BoldClose, p)
    {
      if p + 4 <= |t| {
        assert u[p..p + 4] == t[p..p + 4];
        assert !OccursAt(t, BoldClose, p);
      } else if p + 4 <= |u| {
        assert u[p..p + 4][3] == BoldClose[p + 3 - |t|];
      }
    }
    ReplaceAllPassesOver(t, BoldClose, BoldClose, "");
    ReplaceAllAtFront(BoldClose, "", "");
    assert BoldClose + "" == BoldClose;
    ReplaceAllShort("", BoldClose, "");
  }

  /**
   * Tag removal is a single pass, not repeated until no tag is left: an
   * opening tag that only forms once an inner one is removed survives.
   */
  lemma NestedTagSurvives()
    ensures GetFileName("<<b>b>") == "<b>.torrent"
  {
    NestedOpenPass();
    NestedClosePass();
    FileNameCarriesExtension("<<b>b>");
  }

  /** The `<b>` pass over "<<b>b>" removes only the inner tag. */
  lemma NestedOpenPass()
    ensures ReplaceAll("<<b>b>", BoldOpen, "") == "<b>"
  {
    var s, tail := "<<b>b>", "<b>b>";
    assert s[1..] == tail && s[0] == '<';
    assert !StartsWith(s, BoldOpen) by {
      assert s[..3][1] != BoldOpen[1];
    }
    ReplaceAllSkipsFront(s, BoldOpen, "");
    assert tail == BoldOpen + "b>";
    ReplaceAllAtFront(BoldOpen, "b>", "");
    ReplaceAllShort("b>", BoldOpen, "");
  }

  /** The `</b>` pass finds nothing to remove in "<b>". */
  lemma NestedClosePass()
    ensures ReplaceAll("<b>", BoldClose, "") == "<b>"
  {
    ReplaceAllShort("<b>", BoldClose, "");
  }

  /** The closing tag is removed after the opening one, so it sees what the first pass left. */
  lemma ClosingTagFormedByFirstPass()
    ensures GetFileName("</<b>b>") == ".torrent"
  {
    SplitOpenPass();
    assert ReplaceAll(BoldClose, BoldClose, "") == "" by {
      ReplaceAllAtFront(BoldClose, "", "");
      assert BoldClose + "" == BoldClose;
      ReplaceAllShort("", BoldClose, "");
    }
    FileNameCarriesExtension("</<b>b>");
  }

  /** The `<b>` pass over "</<b>b>" leaves a closing tag behind. */
  lemma SplitOpenPass()
    ensures ReplaceAll("</<b>b>", BoldOpen, "") == BoldClose
  {
    var s := "</<b>b>";
    assert !StartsWith(s, BoldOpen) by {
      assert s[..3][1] != BoldOpen[1];
    }
    ReplaceAllSkipsFront(s, BoldOpen, "");
    assert s[1..] == "/<b>b>";
    SlashOpenPass();
  }

  /** The `<b>` pass over "/<b>b>". */
  lemma SlashOpenPass()
    ensures ReplaceAll("/<b>b>", BoldOpen, "") == "/b>"
  {
    var t := "/<b>b>";
    assert !StartsWith(t, BoldOpen) by {
      assert t[..3][0] != BoldOpen[0];
    }
    ReplaceAllSkipsFront(t, BoldOpen, "");
    assert t[1..] == BoldOpen + "b>";
    ReplaceAllAtFront(BoldOpen, "b>", "");
    ReplaceAllShort("b>", BoldOpen, "");
  }

  /** `getFilenameNoExtension()`: the raw title, tags kept, wrapped as HTML. */
  function GetFilenameNoExtension(title: string): (r: string)
    ensures |r| == |title| + 13
    ensures StartsWith(r, "<html>") && EndsWith(r, "</html>")
    ensures r[6..|r| - 7] == title
  {
    "<html>" + title + "</html>"
  }
}
