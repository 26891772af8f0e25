/** The curated certificate font catalog: a hundred Google Fonts in five
    categories, the look-ups the template editor makes on it, the category
    descriptions and the default font per event type. */
module CertificateFonts {
  import opened Text
  import CertificateHelpers

  datatype FontCategory = Formal | Modern | Display | Script | Minimal

  /** An entry of the catalog. The stylesheet URL is left out; `weight` is
      optional in the interface but set on every entry. */
  datatype CertificateFont = CertificateFont(
    name: string,
    value: string,
    category: FontCategory,
    weight: int,
    recommended: bool)

  /** An entry whose display name is its family name, as every entry is. */
  function Font(family: string, category: FontCategory, weight: int, recommended: bool): CertificateFont
  {
    CertificateFont(family, family, category, weight, recommended)
  }

  // ---------------------------------------------------------------------------
  // The catalog, section by section in source order
  // ---------------------------------------------------------------------------

  /** Formal: classic, elegant serifs. */
  const FormalFonts: seq<CertificateFont> := [
    Font("Playfair Display", Formal, 700, true),
    Font("Libre Baskerville", Formal, 700, true),
    Font("Crimson Text", Formal, 600, false),
    Font("Spectral", Formal, 600, false),
    Font("EB Garamond", Formal, 600, false),
    Font("Cormorant Garamond", Formal, 600, false),
    Font("Cinzel", Formal, 700, false),
    Font("Cardo", Formal, 700, false),
    Font("Lora", Formal, 600, false),
    Font("Merriweather", Formal, 700, false),
    Font("Vollkorn", Formal, 600, false),
    Font("Gentium Plus", Formal, 700, false),
    Font("Prata", Formal, 400, false),
    Font("Old Standard TT", Formal, 700, false),
    Font("Domine", Formal, 700, false),
    Font("Noticia Text", Formal, 700, false),
    Font("Tinos", Formal, 700, false),
    Font("Arvo", Formal, 700, false),
    Font("Neuton", Formal, 700, false),
    Font("Alegreya", Formal, 700, false)
  ]

  /** Modern: safe, popular sans-serifs. */
  const ModernFonts: seq<CertificateFont> := [
    Font("Inter", Modern, 700, true),
    Font("Poppins", Modern, 600, true),
    Font("Montserrat", Modern, 700, true),
    Font("DM Sans", Modern, 700, false),
    Font("Manrope", Modern, 700, false),
    Font("Source Sans 3", Modern, 600, false),
    Font("Work Sans", Modern, 600, false),
    Font("Rubik", Modern, 600, false),
    Font("Noto Sans", Modern, 600, false),
    Font("Open Sans", Modern, 700, false),
    Font("Lato", Modern, 700, false),
    Font("Nunito", Modern, 700, false),
    Font("Mulish", Modern, 700, false),
    Font("Raleway", Modern, 700, false),
    Font("Urbanist", Modern, 700, false),
    Font("Outfit", Modern, 700, false),
    Font("Karla", Modern, 700, false),
    Font("Heebo", Modern, 700, false),
    Font("IBM Plex Sans", Modern, 600, false),
    Font("Figtree", Modern, 700, false),
    Font("Cabin", Modern, 700, false),
    Font("Assistant", Modern, 700, false),
    Font("Hind", Modern, 700, false),
    Font("Oxygen", Modern, 700, false),
    Font("Quicksand", Modern, 700, false)
  ]

  /** Display: bold, head-turning faces. */
  const DisplayFonts: seq<CertificateFont> := [
    Font("Bebas Neue", Display, 400, true),
    Font("Anton", Display, 400, false),
    Font("Oswald", Display, 700, false),
    Font("Archivo Black", Display, 400, false),
    Font("League Spartan", Display, 700, false),
    Font("Abril Fatface", Display, 400, false),
    Font("Alfa Slab One", Display, 400, false),
    Font("Playfair Display SC", Display, 700, false),
    Font("Exo 2", Display, 700, false),
    Font("Bungee", Display, 400, false),
    Font("Teko", Display, 700, false),
    Font("Staatliches", Display, 400, false),
    Font("Passion One", Display, 700, false),
    Font("Black Ops One", Display, 400, false),
    Font("Russo One", Display, 400, false),
    Font("Changa One", Display, 400, false),
    Font("Secular One", Display, 400, false),
    Font("Yanone Kaffeesatz", Display, 700, false),
    Font("Saira Condensed", Display, 700, false),
    Font("DM Serif Display", Display, 400, false)
  ]

  /** Script: signature styles, for limited use. */
  const ScriptFonts: seq<CertificateFont> := [
    Font("Great Vibes", Script, 400, true),
    Font("Allura", Script, 400, false),
    Font("Alex Brush", Script, 400, false),
    Font("Dancing Script", Script, 700, false),
    Font("Sacramento", Script, 400, false),
    Font("Pacifico", Script, 400, false),
    Font("Satisfy", Script, 400, false),
    Font("Parisienne", Script, 400, false),
    Font("Courgette", Script, 400, false),
    Font("Kaushan Script", Script, 400, false),
    Font("Yellowtail", Script, 400, false),
    Font("Marck Script", Script, 400, false),
    Font("Tangerine", Script, 700, false),
    Font("Herr Von Muellerhoff", Script, 400, false),
    Font("Rochester", Script, 400, false)
  ]

  /** Minimal: clean, technical faces. */
  const MinimalFonts: seq<CertificateFont> := [
    Font("JetBrains Mono", Minimal, 600, false),
    Font("Space Grotesk", Minimal, 700, false),
    Font("IBM Plex Mono", Minimal, 600, false),
    Font("Red Hat Display", Minimal, 700, false),
    Font("Recursive", Minimal, 700, false),
    Font("PT Sans", Minimal, 700, false),
    Font("Ubuntu", Minimal, 700, false),
    Font("Fira Sans", Minimal, 600, false),
    Font("Overpass", Minimal, 700, false),
    Font("Public Sans", Minimal, 700, false),
    Font("Archivo", Minimal, 700, false),
    Font("Lexend", Minimal, 700, false),
    Font("Varela Round", Minimal, 400, false),
    Font("Expletus Sans", Minimal, 700, false),
    Font("Barlow", Minimal, 700, false),
    Font("Titillium Web", Minimal, 700, false),
    Font("Asap", Minimal, 700, false),
    Font("M PLUS 1", Minimal, 700, false),
    Font("Noto Serif", Minimal, 700, false),
    Font("Zilla Slab", Minimal, 700, false)
  ]

  /** `CERTIFICATE_FONTS`. */
  const Catalog: seq<CertificateFont> := FormalFonts + ModernFonts + DisplayFonts + ScriptFonts + MinimalFonts

  // ---------------------------------------------------------------------------
  // Look-ups
  // ---------------------------------------------------------------------------

  function InCategory(category: FontCategory): CertificateFont -> bool
  {
    (f: CertificateFont) => f.category == category
  }

  function IsRecommended(f: CertificateFont): bool
  {
    f.recommended
  }

  function HasValue(value: string): CertificateFont -> bool
  {
    (f: CertificateFont) => f.value == value
  }

  /** `getFontsByCategory(category)`. */
  function FontsByCategory(category: FontCategory): seq<CertificateFont>
  {
    Filter(Catalog, InCategory(category))
  }

  /** `getRecommendedFonts()`. */
  function RecommendedFonts(): seq<CertificateFont>
  {
    Filter(Catalog, IsRecommended)
  }

  /** `getFontByValue(value)`. */
  function FontByValue(value: string): Option<CertificateFont>
  {
    Find(Catalog, HasValue(value))
  }

  // ---------------------------------------------------------------------------
  // The catalog by category
  // ---------------------------------------------------------------------------

  /** Every font of `fonts` is in `category`. */
  predicate AllIn(fonts: seq<CertificateFont>, category: FontCategory)
  {
    forall i :: 0 <= i < |fonts| ==> fonts[i].category == category
  }

  /** The section of the catalog that holds a category. */
  function Section(category: FontCategory): seq<CertificateFont>
  {
    match category
    case Formal => FormalFonts
    case Modern => ModernFonts
    case Display => DisplayFonts
    case Script => ScriptFonts
    case Minimal => MinimalFonts
  }

  /** Only the first `n` fonts of a section are recommended. */
  predicate RecommendedFirst(section: seq<CertificateFont>, n: nat)
  {
    && n <= |section|
    && (forall i :: 0 <= i < n ==> IsRecommended(section[i]))
    && (forall i :: n <= i < |section| ==> !IsRecommended(section[i]))
  }

  /** Each section holds only its own category, and its recommended fonts
      come first. */
  lemma FormalSection()
    ensures AllIn(FormalFonts, Formal) && RecommendedFirst(FormalFonts, 2)
  {
  }

  lemma ModernSection()
    ensures AllIn(ModernFonts, Modern) && RecommendedFirst(ModernFonts, 3)
  {
  }

  lemma DisplaySection()
    ensures AllIn(DisplayFonts, Display) && RecommendedFirst(DisplayFonts, 1)
  {
  }

  lemma ScriptSection()
    ensures AllIn(ScriptFonts, Script) && RecommendedFirst(ScriptFonts, 1)
  {
  }

  lemma MinimalSection()
    ensures AllIn(MinimalFonts, Minimal) && RecommendedFirst(MinimalFonts, 0)
  {
  }

  /** All five sections. */
  lemma SectionFacts()
    ensures AllIn(FormalFonts, Formal) && AllIn(ModernFonts, Modern) && AllIn(DisplayFonts, Display)
    ensures AllIn(ScriptFonts, Script) && AllIn(MinimalFonts, Minimal)
    ensures RecommendedFirst(FormalFonts, 2) && RecommendedFirst(ModernFonts, 3)
    ensures RecommendedFirst(DisplayFonts, 1) && RecommendedFirst(ScriptFonts, 1)
    ensures RecommendedFirst(MinimalFonts, 0)
  {
    FormalSection();
    ModernSection();
    DisplaySection();
    ScriptSection();
    MinimalSection();
  }

  /** Filtering a section by category keeps all of it or none of it. */
  lemma SectionFilter(section: seq<CertificateFont>, own: FontCategory, category: FontCategory)
    requires AllIn(section, own)
    ensures Filter(section, InCategory(category)) == if own == category then section else []
  {
    if own == category {
      AllPicked(section, InCategory(category));
    } else {
      NonePicked(section, InCategory(category));
    }
  }

  /** Filtering five concatenated lists filters each. */
  lemma FilterFive(a: seq<CertificateFont>, b: seq<CertificateFont>, c: seq<CertificateFont>,
                   d: seq<CertificateFont>, e: seq<CertificateFont>, keep: CertificateFont -> bool)
    ensures Filter(a + b + c + d + e, keep) == Filter(a, keep) + Filter(b, keep) + Filter(c, keep) + Filter(d, keep) + Filter(e, keep)
  {
    FilterAppend(a, b, keep);
    FilterAppend(a + b, c, keep);
    FilterAppend(a + b + c, d, keep);
    FilterAppend(a + b + c + d, e, keep);
  }

  /** Five lists of the five categories, one after the other, filtered by a
      category give the list of that category. */
  lemma FilterSections(a: seq<CertificateFont>, b: seq<CertificateFont>, c: seq<CertificateFont>,
                       d: seq<CertificateFont>, e: seq<CertificateFont>, category: FontCategory)
    requires AllIn(a, Formal) && AllIn(b, Modern) && AllIn(c, Display) && AllIn(d, Script) && AllIn(e, Minimal)
    ensures Filter(a + b + c + d + e, InCategory(category)) ==
      match category
      case Formal => a
      case Modern => b
      case Display => c
      case Script => d
      case Minimal => e
  {
    FilterFive(a, b, c, d, e, InCategory(category));
    SectionFilter(a, Formal, category);
    SectionFilter(b, Modern, category);
    SectionFilter(c, Display, category);
    SectionFilter(d, Script, category);
    SectionFilter(e, Minimal, category);
    OnlyOne(a, b, c, d, e, category);
  }

  /** Four of five parts empty: the concatenation is the fifth. */
  lemma OnlyOne(a: seq<CertificateFont>, b: seq<CertificateFont>, c: seq<CertificateFont>,
                d: seq<CertificateFont>, e: seq<CertificateFont>, category: FontCategory)
    ensures (if Formal == category then a else []) + (if Modern == category then b else [])
      + (if Display == category then c else []) + (if Script == category then d else [])
      + (if Minimal == category then e else []) ==
      match category
      case Formal => a
      case Modern => b
      case Display => c
      case Script => d
      case Minimal => e
  {
    match category
    case Formal => assert a + [] + [] + [] + [] == a;
    case Modern => assert [] + b + [] + [] + [] == b;
    case Display => assert [] + [] + c + [] + [] == c;
    case Script => assert [] + [] + [] + d + [] == d;
    case Minimal => assert [] + [] + [] + [] + e == e;
  }

  /** `getFontsByCategory` gives exactly the catalog section of that
      category, in catalog order. */
  lemma FontsByCategorySection(category: FontCategory)
    ensures FontsByCategory(category) == Section(category)
  {
    SectionFacts();
    FilterSections(FormalFonts, ModernFonts, DisplayFonts, ScriptFonts, MinimalFonts, category);
  }

  /** The catalog holds a hundred fonts: 20 formal, 25 modern, 20 display,
      15 script and 20 minimal. */
  lemma CatalogSize()
    ensures |Catalog| == 100
    ensures |FontsByCategory(Formal)| == 20 && |FontsByCategory(Modern)| == 25
    ensures |FontsByCategory(Display)| == 20 && |FontsByCategory(Script)| == 15
    ensures |FontsByCategory(Minimal)| == 20
  {
    FontsByCategorySection(Formal);
    FontsByCategorySection(Modern);
    FontsByCategorySection(Display);
    FontsByCategorySection(Script);
    FontsByCategorySection(Minimal);
  }

  /** For any list of fonts, the five category filters split it: each font
      lands in the list of its own category and no other, each list keeps
      the original order, and the lengths add up. */
  lemma {:induction false} CategoriesPartition(fonts: seq<CertificateFont>, f: CertificateFont, category: FontCategory)
    ensures f in Filter(fonts, InCategory(category)) <==> f in fonts && f.category == category
    ensures IsSubsequence(Filter(fonts, InCategory(category)), fonts)
    ensures |fonts| == |Filter(fonts, InCategory(Formal))| + |Filter(fonts, InCategory(Modern))|
      + |Filter(fonts, InCategory(Display))| + |Filter(fonts, InCategory(Script))| + |Filter(fonts, InCategory(Minimal))|
  {
    FilterMember(fonts, InCategory(category), f);
    FilterInOrder(fonts, InCategory(category));
    CategoryCounts(fonts);
  }

  lemma {:induction false} CategoryCounts(fonts: seq<CertificateFont>)
    ensures |fonts| == |Filter(fonts, InCategory(Formal))| + |Filter(fonts, InCategory(Modern))|
      + |Filter(fonts, InCategory(Display))| + |Filter(fonts, InCategory(Script))| + |Filter(fonts, InCategory(Minimal))|
  {
    if fonts != [] {
      CategoryCounts(fonts[..|fonts| - 1]);
    }
  }

  // ---------------------------------------------------------------------------
  // Recommended fonts
  // ---------------------------------------------------------------------------

  /** `getRecommendedFonts` gives the recommended head of each section. */
  lemma RecommendedSections()
    ensures RecommendedFonts() == FormalFonts[..2] + ModernFonts[..3] + DisplayFonts[..1] + ScriptFonts[..1] + MinimalFonts[..0]
  {
    FilterFive(FormalFonts, ModernFonts, DisplayFonts, ScriptFonts, MinimalFonts, IsRecommended);
    SectionFacts();
    FilterPrefix(FormalFonts, IsRecommended, 2);
    FilterPrefix(ModernFonts, IsRecommended, 3);
    FilterPrefix(DisplayFonts, IsRecommended, 1);
    FilterPrefix(ScriptFonts, IsRecommended, 1);
    FilterPrefix(MinimalFonts, IsRecommended, 0);
  }

  /** `getRecommendedFonts` gives seven fonts, in catalog order. */
  lemma RecommendedSeven()
    ensures RecommendedFonts() == [
      Font("Playfair Display", Formal, 700, true),
      Font("Libre Baskerville", Formal, 700, true),
      Font("Inter", Modern, 700, true),
      Font("Poppins", Modern, 600, true),
      Font("Montserrat", Modern, 700, true),
      Font("Bebas Neue", Display, 400, true),
      Font("Great Vibes", Script, 400, true)]
  {
    RecommendedSections();
    assert FormalFonts[..2] == [FormalFonts[0], FormalFonts[1]];
    assert ModernFonts[..3] == [ModernFonts[0], ModernFonts[1], ModernFonts[2]];
    assert DisplayFonts[..1] == [DisplayFonts[0]];
    assert ScriptFonts[..1] == [ScriptFonts[0]];
  }

  // ---------------------------------------------------------------------------
  // Look-up by value
  // ---------------------------------------------------------------------------

  /** `getFontByValue` gives an entry with that value, and gives nothing
      exactly when no entry has it. */
  lemma FontByValueMatches(value: string)
    ensures FontByValue(value).Some? ==> FontByValue(value).value in Catalog && FontByValue(value).value.value == value
    ensures FontByValue(value).None? <==> forall i :: 0 <= i < |Catalog| ==> Catalog[i].value != value
  {
    FindNone(Catalog, HasValue(value));
  }

  /** It gives the first entry with that value. */
  lemma FontByValueFirst(value: string, i: nat)
    requires i < |Catalog| && Catalog[i].value == value
    requires forall j :: 0 <= j < i ==> Catalog[j].value != value
    ensures FontByValue(value) == Some(Catalog[i])
  {
    FindFirst(Catalog, HasValue(value), i);
  }

  /** Every family listed in a section is found. */
  lemma SectionEntryFound(category: FontCategory, k: nat)
    requires k < |Section(category)|
    ensures FontByValue(Section(category)[k].value).Some?
  {
    var f := Section(category)[k];
    FontsByCategorySection(category);
    FilterMember(Catalog, InCategory(category), f);
    var i :| 0 <= i < |Catalog| && Catalog[i] == f;
    FindNone(Catalog, HasValue(f.value));
  }

  /** `RECOMMENDED_FONTS_BY_EVENT_TYPE`. */
  const RecommendedFontsByEventType: map<string, string> := map[
    "formal" := "Playfair Display",
    "academic" := "Libre Baskerville",
    "tech" := "Inter",
    "hackathon" := "Space Grotesk",
    "cultural" := "Montserrat",
    "sports" := "Bebas Neue",
    "volunteer" := "Libre Baskerville",
    "workshop" := "Poppins",
    "conference" := "Playfair Display",
    "default" := "Playfair Display"
  ]

  /** `getFontByValue(value)` finds a font. */
  predicate Catalogued(value: string)
  {
    FontByValue(value).Some?
  }

  /** A family at a known place in its section is found. */
  lemma FoundAt(value: string, category: FontCategory, k: nat)
    requires k < |Section(category)| && Section(category)[k].value == value
    ensures Catalogued(value)
  {
    SectionEntryFound(category, k);
  }

  /** The families the event-type tables name, one at a time. */
  lemma PlayfairDisplayCatalogued()
    ensures Catalogued("Playfair Display")
  {
    FoundAt("Playfair Display", Formal, 0);
  }

  lemma LibreBaskervilleCatalogued()
    ensures Catalogued("Libre Baskerville")
  {
    FoundAt("Libre Baskerville", Formal, 1);
  }

  lemma CrimsonTextCatalogued()
    ensures Catalogued("Crimson Text")
  {
    FoundAt("Crimson Text", Formal, 2);
  }

  lemma LoraCatalogued()
    ensures Catalogued("Lora")
  {
    FoundAt("Lora", Formal, 8);
  }

  lemma InterCatalogued()
    ensures Catalogued("Inter")
  {
    FoundAt("Inter", Modern, 0);
  }

  lemma PoppinsCatalogued()
    ensures Catalogued("Poppins")
  {
    FoundAt("Poppins", Modern, 1);
  }

  lemma MontserratCatalogued()
    ensures Catalogued("Montserrat")
  {
    FoundAt("Montserrat", Modern, 2);
  }

  lemma BebasNeueCatalogued()
    ensures Catalogued("Bebas Neue")
  {
    FoundAt("Bebas Neue", Display, 0);
  }

  lemma SpaceGroteskCatalogued()
    ensures Catalogued("Space Grotesk")
  {
    FoundAt("Space Grotesk", Minimal, 1);
  }

  /** Every font a table names is in the catalog. */
  predicate AllCatalogued(table: map<string, string>)
  {
    forall t :: t in table ==> Catalogued(table[t])
  }

  /** A table stays so when an entry naming a catalogued font is added. */
  lemma TableStep(table: map<string, string>, key: string, value: string)
    requires AllCatalogued(table) && Catalogued(value)
    ensures AllCatalogued(table[key := value])
  {
  }

  /** Every font the event-type table names is in the catalog. */
  lemma EventTypeFontsCatalogued()
    ensures AllCatalogued(RecommendedFontsByEventType)
  {
    PlayfairDisplayCatalogued();
    LibreBaskervilleCatalogued();
    InterCatalogued();
    PoppinsCatalogued();
    MontserratCatalogued();
    BebasNeueCatalogued();
    SpaceGroteskCatalogued();
    var m0: map<string, string> := map[];
    TableStep(m0, "formal", "Playfair Display");
    var m1 := m0["formal" := "Playfair Display"];
    TableStep(m1, "academic", "Libre Baskerville");
    var m2 := m1["academic" := "Libre Baskerville"];
    TableStep(m2, "tech", "Inter");
    var m3 := m2["tech" := "Inter"];
    TableStep(m3, "hackathon", "Space Grotesk");
    var m4 := m3["hackathon" := "Space Grotesk"];
    TableStep(m4, "cultural", "Montserrat");
    var m5 := m4["cultural" := "Montserrat"];
    TableStep(m5, "sports", "Bebas Neue");
    var m6 := m5["sports" := "Bebas Neue"];
    TableStep(m6, "volunteer", "Libre Baskerville");
    var m7 := m6["volunteer" := "Libre Baskerville"];
    TableStep(m7, "workshop", "Poppins");
    var m8 := m7["workshop" := "Poppins"];
    TableStep(m8, "conference", "Playfair Display");
    var m9 := m8["conference" := "Playfair Display"];
    TableStep(m9, "default", "Playfair Display");
    assert RecommendedFontsByEventType == m9["default" := "Playfair Display"];
  }

  /** Every font the certificate helpers suggest for an event type, and
      their default, is in the catalog too; the inherited members the lookup
      can also return are not font names at all. */
  lemma HelperFontsCatalogued()
    ensures AllCatalogued(CertificateHelpers.FontForType)
    ensures Catalogued(CertificateHelpers.DefaultFont)
    ensures forall t :: CertificateHelpers.RecommendedFontForEventType(t).Font? ==>
      Catalogued(CertificateHelpers.RecommendedFontForEventType(t).name)
  {
    PlayfairDisplayCatalogued();
    LibreBaskervilleCatalogued();
    CrimsonTextCatalogued();
    LoraCatalogued();
    InterCatalogued();
    PoppinsCatalogued();
    MontserratCatalogued();
    BebasNeueCatalogued();
    SpaceGroteskCatalogued();
    var m0: map<string, string> := map[];
    TableStep(m0, "academic", "Playfair Display");
    var m1 := m0["academic" := "Playfair Display"];
    TableStep(m1, "formal", "Libre Baskerville");
    var m2 := m1["formal" := "Libre Baskerville"];
    TableStep(m2, "tech", "Inter");
    var m3 := m2["tech" := "Inter"];
    TableStep(m3, "hackathon", "Space Grotesk");
    var m4 := m3["hackathon" := "Space Grotesk"];
    TableStep(m4, "cultural", "Montserrat");
    var m5 := m4["cultural" := "Montserrat"];
    TableStep(m5, "sports", "Bebas Neue");
    var m6 := m5["sports" := "Bebas Neue"];
    TableStep(m6, "workshop", "Poppins");
    var m7 := m6["workshop" := "Poppins"];
    TableStep(m7, "conference", "Crimson Text");
    var m8 := m7["conference" := "Crimson Text"];
    TableStep(m8, "volunteer", "Lora");
    assert CertificateHelpers.FontForType == m8["volunteer" := "Lora"];
  }

  // ---------------------------------------------------------------------------
  // Category descriptions
  // ---------------------------------------------------------------------------

  /** `label` is a keyword here, so the label is held as `title`. */
  datatype CategoryInfo = CategoryInfo(title: string, description: string, icon: string)

  /** `FONT_CATEGORIES`. */
  const FontCategories: map<FontCategory, CategoryInfo> := map[
    Formal := CategoryInfo("Formal / Certificate", "Classic serif fonts perfect for traditional certificates", "\U{1F393}"),
    Modern := CategoryInfo("Modern / Sans", "Clean sans-serif fonts for contemporary events", "\U{1F9E0}"),
    Display := CategoryInfo("Display / Bold", "Head-turning fonts that command attention", "\U{1F525}"),
    Script := CategoryInfo("Script / Signature", "Elegant handwritten styles (use sparingly)", "\U{270D}\U{FE0F}"),
    Minimal := CategoryInfo("Minimal / Tech", "Clean technical fonts for modern tech events", "\U{1F9EA}")
  ]

  /** Every category has a description with its own label, and fonts to
      show under it. */
  lemma EveryCategoryDescribed(c: FontCategory, d: FontCategory)
    ensures c in FontCategories
    ensures FontCategories[c].title == FontCategories[d].title ==> c == d
    ensures |FontsByCategory(c)| > 0
  {
    CatalogSize();
  }
}
