/** Two display rules of the client: the chapter label of the reader's
    header, and the badge class of a comic's type. */
module Labels {

  import opened Base
  import opened Text

  /** The trimmed text already says "chapter", in any case. */
  predicate MentionsChapter(t: string) {
    Contains(Lower(t), "chapter")
  }

  /** `normalizeChapterLabel(text)`: an empty text is labelled "Chapter"; a
      text mentioning "chapter" is kept as it is after trimming; otherwise
      its first numeral becomes "Chapter <numeral>"; a text without any
      numeral is kept trimmed. A text of spaces only therefore yields "". */
  function NormalizeChapterLabel(text: string): (r: string)
    ensures !Truthy(text) ==> r == "Chapter"
    ensures Truthy(text) && MentionsChapter(Trim(text)) ==> r == Trim(text)
    ensures Truthy(text) && !MentionsChapter(Trim(text)) && !HasDigit(Trim(text)) ==> r == Trim(text)
    ensures Truthy(text) && !MentionsChapter(Trim(text)) && HasDigit(Trim(text)) ==>
      FirstNumber(Trim(text)).Some? && r == "Chapter " + FirstNumber(Trim(text)).value
    // every label either names a chapter or carries no number at all
    ensures MentionsChapter(r) || !HasDigit(r)
    ensures r == "" <==> Truthy(text) && Trim(text) == ""
  {
    if !Truthy(text) then
      ChapterMentioned("Chapter", "");
      "Chapter"
    else
      var t := Trim(text);
      if MentionsChapter(t) then t
      else match FirstNumber(t)
        case Some(n) =>
          ChapterMentioned("Chapter ", n);
          "Chapter " + n
        case None => t
  }

  /** Any text starting with "Chapter" mentions a chapter. */
  lemma ChapterMentioned(prefix: string, n: string)
    requires StartsWith(prefix, "Chapter")
    ensures MentionsChapter(prefix + n)
  {
    var s := Lower(prefix + n);
    assert s[..7] == "chapter" by {
      assert forall i :: 0 <= i < 7 ==> s[i] == LowerChar((prefix + n)[i]) == LowerChar("Chapter"[i]);
    }
    StartsWithContains(s, "chapter");
  }

  /** Normalising a label that is not empty gives it back unchanged. */
  lemma NormalizeIdempotent(text: string)
    requires NormalizeChapterLabel(text) != ""
    ensures NormalizeChapterLabel(NormalizeChapterLabel(text)) == NormalizeChapterLabel(text)
  {
    var r := NormalizeChapterLabel(text);
    if !Truthy(text) {
      TrimFixed("Chapter");
      ChapterMentioned("Chapter", "");
      assert "Chapter" + "" == "Chapter";
      LabelKept("Chapter");
    } else {
      var t := Trim(text);
      if MentionsChapter(t) || FirstNumber(t).None? {
        TrimFixed(t);
        LabelKept(t);
      } else {
        var n := FirstNumber(t).value;
        assert r == "Chapter " + n;
        NumberedLabelKept(n);
      }
    }
  }

  /** A label with no space at either end that mentions a chapter or has
      no digit is kept as it is. */
  lemma LabelKept(t: string)
    requires Truthy(t) && Trim(t) == t
    requires MentionsChapter(t) || !HasDigit(t)
    ensures NormalizeChapterLabel(t) == t
  {
  }

  /** "Chapter <numeral>" is kept as it is. */
  lemma NumberedLabelKept(n: string)
    requires IsNumeral(n)
    ensures NormalizeChapterLabel("Chapter " + n) == "Chapter " + n
  {
    var r := "Chapter " + n;
    assert IsDigit(n[|n| - 1]) by {
      var a := DigitRun(n);
      if a < |n| {
        assert n[a + 1..][|n| - a - 2] == n[|n| - 1];
      }
    }
    assert r[0] == 'C' && r[|r| - 1] == n[|n| - 1];
    TrimFixed(r);
    ChapterMentioned("Chapter ", n);
    LabelKept(r);
  }

  // ------------------------------------------------------------ type badges

  datatype TypeClass = DefaultType | MangaType | ManhwaType | ManhuaType

  /** `getTypeClass(type)`: the first of "manga", "manhwa", "manhua" the
      lower-cased type contains, tested in that order; none of them, or no
      type at all, gives the default badge. */
  function TypeClassOf(kind: string): (r: TypeClass)
    ensures !Truthy(kind) ==> r == DefaultType
    ensures r == MangaType <==> Contains(Lower(kind), "manga")
    ensures r == ManhwaType <==> !Contains(Lower(kind), "manga") && Contains(Lower(kind), "manhwa")
    ensures r == ManhuaType <==>
      !Contains(Lower(kind), "manga") && !Contains(Lower(kind), "manhwa") && Contains(Lower(kind), "manhua")
  {
    if !Truthy(kind) then DefaultType
    else
      var t := Lower(kind);
      if Contains(t, "manga") then MangaType
      else if Contains(t, "manhwa") then ManhwaType
      else if Contains(t, "manhua") then ManhuaType
      else DefaultType
  }

  /** The badge does not depend on letter case. */
  lemma TypeClassIgnoresCase(kind: string)
    ensures TypeClassOf(Upper(kind)) == TypeClassOf(kind)
  {
    LowerUpper(kind);
  }

  /** Examples: "Manhwa" gets the manhwa badge; a type naming two kinds
      gets the first in test order; "Comic" gets the default. */
  lemma ManhwaBadge()
    ensures TypeClassOf("Manhwa") == ManhwaType
  {
    assert Lower("Manhwa") == "manhwa";
    assert OccursAt("manhwa", "manhwa", 0);
    ContainsAt("manhwa", "manhwa");
    assert "manhwa"[0..5][3] != "manga"[3] && "manhwa"[1..6][0] != "manga"[0];
    ContainsAt("manhwa", "manga");
  }

  lemma MixedBadge()
    ensures TypeClassOf("Manga / Manhua") == MangaType
  {
    assert OccursAt(Lower("Manga / Manhua"), "manga", 0);
    ContainsAt(Lower("Manga / Manhua"), "manga");
  }

  lemma PlainBadge()
    ensures TypeClassOf("Comic") == DefaultType
  {
    assert Lower("Comic") == "comic";
    assert "comic"[0..5][0] != "manga"[0];
    ContainsAt("comic", "manga");
    ContainsAt("comic", "manhwa");
    ContainsAt("comic", "manhua");
  }
}
