/** The web-safe certificate fonts: five families of system fonts, the
    look-ups by category and by name, and the category list. */
module Fonts {
  import opened Text

  /** `FontOption["category"]`; `Display` is the `"display"` family. */
  datatype Category = Serif | SansSerif | Monospace | Cursive | Display

  datatype Style = Formal | Modern | Elegant | Technical | Playful | Bold

  datatype FontOption = FontOption(name: string, value: string, category: Category, style: Style, fallback: string)

  /** An entry whose display name is its family name, as every entry is. */
  function Web(family: string, category: Category, style: Style, fallback: string): FontOption
  {
    FontOption(family, family, category, style, fallback)
  }

  /** The category as the text the source uses for it. */
  function CategoryId(c: Category): string
  {
    match c
    case Serif => "serif"
    case SansSerif => "sans-serif"
    case Monospace => "monospace"
    case Cursive => "cursive"
    case Display => "display"
  }

  // ---------------------------------------------------------------------------
  // The catalog, section by section in source order
  // ---------------------------------------------------------------------------

  /** Serif: formal and elegant. */
  const SerifFonts: seq<FontOption> := [
    Web("Georgia", Serif, Formal, "Georgia, serif"),
    Web("Times New Roman", Serif, Formal, "'Times New Roman', Times, serif"),
    Web("Garamond", Serif, Elegant, "Garamond, 'Garamond Premier Pro', serif"),
    Web("Palatino", Serif, Elegant, "'Palatino Linotype', 'Book Antiqua', Palatino, serif"),
    Web("Baskerville", Serif, Elegant, "Baskerville, 'Baskerville Old Face', 'Hoefler Text', Garamond, serif")
  ]

  /** Sans-serif: modern and clean. */
  const SansSerifFonts: seq<FontOption> := [
    Web("Arial", SansSerif, Modern, "Arial, Helvetica, sans-serif"),
    Web("Helvetica", SansSerif, Modern, "Helvetica, Arial, sans-serif"),
    Web("Verdana", SansSerif, Modern, "Verdana, Geneva, sans-serif"),
    Web("Tahoma", SansSerif, Modern, "Tahoma, Geneva, sans-serif"),
    Web("Trebuchet MS", SansSerif, Modern, "'Trebuchet MS', 'Lucida Sans Unicode', 'Lucida Grande', sans-serif"),
    Web("Geneva", SansSerif, Modern, "Geneva, Tahoma, sans-serif"),
    Web("Gill Sans", SansSerif, Elegant, "'Gill Sans', 'Gill Sans MT', Calibri, sans-serif")
  ]

  /** Monospace: technical. */
  const MonospaceFonts: seq<FontOption> := [
    Web("Courier New", Monospace, Technical, "'Courier New', Courier, monospace"),
    Web("Monaco", Monospace, Technical, "Monaco, 'Lucida Console', monospace"),
    Web("Consolas", Monospace, Technical, "Consolas, 'Courier New', monospace")
  ]

  /** Cursive: handwriting and script. */
  const CursiveFonts: seq<FontOption> := [
    Web("Brush Script MT", Cursive, Playful, "'Brush Script MT', cursive"),
    Web("Lucida Handwriting", Cursive, Elegant, "'Lucida Handwriting', 'Apple Chancery', cursive"),
    Web("Comic Sans MS", Cursive, Playful, "'Comic Sans MS', 'Comic Sans', cursive")
  ]

  /** Display: bold and eye-catching. */
  const DisplayFonts: seq<FontOption> := [
    Web("Impact", Display, Bold, "Impact, Haettenschweiler, 'Arial Narrow Bold', sans-serif"),
    Web("Copperplate", Display, Formal, "Copperplate, 'Copperplate Gothic Light', fantasy"),
    Web("Papyrus", Display, Playful, "Papyrus, fantasy")
  ]

  /** `CERTIFICATE_FONTS`. */
  const Catalog: seq<FontOption> := SerifFonts + SansSerifFonts + MonospaceFonts + CursiveFonts + DisplayFonts

  /** The fallback stack used for a name the catalog does not hold. */
  const DefaultFallback := "Arial, sans-serif"

  // ---------------------------------------------------------------------------
  // Look-ups
  // ---------------------------------------------------------------------------

  function InCategory(category: Category): FontOption -> bool
  {
    (f: FontOption) => f.category == category
  }

  function HasValue(value: string): FontOption -> bool
  {
    (f: FontOption) => f.value == value
  }

  /** `getFontsByCategory(category)`. */
  function FontsByCategory(category: Category): seq<FontOption>
  {
    Filter(Catalog, InCategory(category))
  }

  /** `getFontFallback(fontName)`: the fallback stack of the entry with that
      value, or Arial when there is none or its stack is empty. */
  function FontFallback(fontName: string): string
  {
    var font := Find(Catalog, HasValue(fontName));
    if font.Some? && font.value.fallback != "" then font.value.fallback else DefaultFallback
  }

  /** An entry of `FONT_CATEGORIES`. */
  datatype CategoryEntry = CategoryEntry(id: string, name: string, description: string)

  /** `FONT_CATEGORIES`. */
  const FontCategories: seq<CategoryEntry> := [
    CategoryEntry("serif", "Serif", "Classic & formal fonts"),
    CategoryEntry("sans-serif", "Sans-Serif", "Modern & clean fonts"),
    CategoryEntry("monospace", "Monospace", "Technical & code fonts"),
    CategoryEntry("cursive", "Cursive", "Handwriting & script fonts"),
    CategoryEntry("display", "Display", "Bold & eye-catching fonts")
  ]

  // ---------------------------------------------------------------------------
  // Categories
  // ---------------------------------------------------------------------------

  /** `getFontsByCategory` keeps the catalog order and lists exactly the
      fonts of that category. */
  lemma FontsByCategoryExact(category: Category, f: FontOption)
    ensures f in FontsByCategory(category) <==> f in Catalog && f.category == category
    ensures IsSubsequence(FontsByCategory(category), Catalog)
  {
    FilterMember(Catalog, InCategory(category), f);
    FilterInOrder(Catalog, InCategory(category));
  }

  /** A font of the category at position `i` of the catalog: the list is
      not empty. */
  lemma Witness(category: Category, i: nat)
    requires i < |Catalog| && Catalog[i].category == category
    ensures FontsByCategory(category) != []
  {
    FilterMember(Catalog, InCategory(category), Catalog[i]);
  }

  /** Every category has a font. */
  lemma EveryCategoryHasFonts(category: Category)
    ensures FontsByCategory(category) != []
  {
    match category
    case Serif => Witness(Serif, 0);
    case SansSerif => Witness(SansSerif, 5);
    case Monospace => Witness(Monospace, 12);
    case Cursive => Witness(Cursive, 15);
    case Display => Witness(Display, 18);
  }

  /** `FONT_CATEGORIES` lists every category once, by its id, so every
      font's category is listed. */
  lemma CategoryIsListed(category: Category)
    ensures exists n :: 0 <= n < |FontCategories| && FontCategories[n].id == CategoryId(category)
    ensures forall n, m :: 0 <= n < m < |FontCategories| ==> FontCategories[n].id != FontCategories[m].id
  {
    match category {
      case Serif => assert FontCategories[0].id == CategoryId(category);
      case SansSerif => assert FontCategories[1].id == CategoryId(category);
      case Monospace => assert FontCategories[2].id == CategoryId(category);
      case Cursive => assert FontCategories[3].id == CategoryId(category);
      case Display => assert FontCategories[4].id == CategoryId(category);
    }
  }

  /** Every listed id is a category that has fonts. */
  lemma ListedIdHasFonts(k: nat)
    requires k < |FontCategories|
    ensures exists c :: CategoryId(c) == FontCategories[k].id && FontsByCategory(c) != []
  {
    var c := [Serif, SansSerif, Monospace, Cursive, Display][k];
    assert CategoryId(c) == FontCategories[k].id;
    EveryCategoryHasFonts(c);
  }

  // ---------------------------------------------------------------------------
  // Unique values and the fallback look-up
  // ---------------------------------------------------------------------------

  /** No two fonts of `xs` share a value. */
  predicate Distinct(xs: seq<FontOption>)
  {
    forall i, j :: 0 <= i < j < |xs| ==> xs[i].value != xs[j].value
  }

  /** No font of `xs` shares a value with a font of `ys`. */
  predicate Apart(xs: seq<FontOption>, ys: seq<FontOption>)
  {
    forall i, j :: 0 <= i < |xs| && 0 <= j < |ys| ==> xs[i].value != ys[j].value
  }

  lemma DistinctAppend(xs: seq<FontOption>, ys: seq<FontOption>)
    requires Distinct(xs) && Distinct(ys) && Apart(xs, ys)
    ensures Distinct(xs + ys)
  {
    var zs := xs + ys;
    forall i, j | 0 <= i < j < |zs|
      ensures zs[i].value != zs[j].value
    {
      if j < |xs| {
        assert zs[i] == xs[i] && zs[j] == xs[j];
      } else if i < |xs| {
        assert zs[i] == xs[i] && zs[j] == ys[j - |xs|];
      } else {
        assert zs[i] == ys[i - |xs|] && zs[j] == ys[j - |xs|];
      }
    }
  }

  lemma SerifDistinct()
    ensures Distinct(SerifFonts)
  {
  }

  lemma SansSerifDistinct()
    ensures Distinct(SansSerifFonts)
  {
  }

  lemma MonospaceDistinct()
    ensures Distinct(MonospaceFonts)
  {
  }

  lemma CursiveDistinct()
    ensures Distinct(CursiveFonts)
  {
  }

  lemma DisplayDistinct()
    ensures Distinct(DisplayFonts)
  {
  }

  /** Each section shares no value with the sections after it. */
  lemma SerifApart()
    ensures Apart(SerifFonts, SansSerifFonts + (MonospaceFonts + (CursiveFonts + DisplayFonts)))
  {
  }

  lemma SectionsApart()
    ensures Apart(SansSerifFonts, MonospaceFonts + (CursiveFonts + DisplayFonts))
    ensures Apart(MonospaceFonts, CursiveFonts + DisplayFonts)
    ensures Apart(CursiveFonts, DisplayFonts)
  {
  }

  /** No two catalog entries share a value. */
  lemma ValuesUnique()
    ensures Distinct(Catalog)
  {
    SerifDistinct();
    SansSerifDistinct();
    MonospaceDistinct();
    CursiveDistinct();
    DisplayDistinct();
    SerifApart();
    SectionsApart();
    DistinctAppend(CursiveFonts, DisplayFonts);
    DistinctAppend(MonospaceFonts, CursiveFonts + DisplayFonts);
    DistinctAppend(SansSerifFonts, MonospaceFonts + (CursiveFonts + DisplayFonts));
    DistinctAppend(SerifFonts, SansSerifFonts + (MonospaceFonts + (CursiveFonts + DisplayFonts)));
    assert Catalog == SerifFonts + (SansSerifFonts + (MonospaceFonts + (CursiveFonts + DisplayFonts)));
  }

  /** Every entry has a fallback stack. */
  lemma FallbacksPresent()
    ensures forall i :: 0 <= i < |Catalog| ==> Catalog[i].fallback != ""
  {
  }

  /** A catalogued font falls back to its own stack: values are unique, so
      the first match is the only one. */
  lemma FallbackOfListed(i: nat)
    requires i < |Catalog|
    ensures FontFallback(Catalog[i].value) == Catalog[i].fallback
  {
    ValuesUnique();
    FallbacksPresent();
    FindFirst(Catalog, HasValue(Catalog[i].value), i);
  }

  /** Any other name falls back to Arial. */
  lemma FallbackOfUnknown(fontName: string)
    requires forall i :: 0 <= i < |Catalog| ==> Catalog[i].value != fontName
    ensures FontFallback(fontName) == DefaultFallback
  {
    FindNone(Catalog, HasValue(fontName));
  }
}
