/**
 * Lookups in the site's translation table, as the site's tests exercise them.
 */
module TableExamples {
  import opened Wrappers
  import opened Strings
  import opened I18n
  import opened Translations
  import opened SiteTable

  /** Three dot-free names joined by dots split back into the three keys. */
  lemma SplitDotted3(a: string, b: string, c: string)
    requires '.' !in a && '.' !in b && '.' !in c
    ensures Split(a + "." + b + "." + c, '.') == [a, b, c]
  {
    assert a + "." + b + "." + c == a + ['.'] + (b + "." + c);
    SplitAfterPiece(a, '.', b + "." + c);
    SplitDotted(b, c);
  }

  /** Walking two keys from an object reaches the grandchild. */
  lemma WalkTwo(t: Node, a: string, b: string)
    requires t.Obj? && a in t.children && t.children[a].Obj? && b in t.children[a].children
    ensures Walk(t, [a, b]) == Some(t.children[a].children[b])
  {
    var child := t.children[a];
    assert Walk(child, [b]) == Some(child.children[b]) by {
      assert [b][1..] == [];
    }
    assert [a, b][1..] == [b];
  }

  /** Walking three keys from an object reaches the great-grandchild. */
  lemma WalkThree(t: Node, a: string, b: string, c: string)
    requires t.Obj? && a in t.children && t.children[a].Obj?
    requires b in t.children[a].children && t.children[a].children[b].Obj?
    requires c in t.children[a].children[b].children
    ensures Walk(t, [a, b, c]) == Some(t.children[a].children[b].children[c])
  {
    assert [a, b, c][1..] == [b, c];
    WalkTwo(t.children[a], b, c);
  }

  /** A two-part key whose first part is not in an object leaves the table. */
  lemma WalkTwoMissing(t: Node, a: string, b: string)
    requires t.Obj? && a !in t.children
    ensures Walk(t, [a, b]) == None
  {
  }

  /** A two-part key whose second part is missing leaves the table. */
  lemma WalkTwoMissingChild(t: Node, a: string, b: string)
    requires t.Obj? && a in t.children && t.children[a].Obj? && b !in t.children[a].children
    ensures Walk(t, [a, b]) == None
  {
    assert [a, b][1..] == [b];
  }

  /** A key that reaches a leaf reads that leaf's English and French strings, and both are present. */
  lemma LeafTranslation(t: Node, key: string, keys: seq<string>, en: string, fr: string, fallback: string)
    requires WellFormed(t)
    requires Split(key, '.') == keys && Walk(t, keys) == Some(Leaf(en, fr))
    ensures TranslationOf(t, key, En, fallback) == en
    ensures TranslationOf(t, key, Fr, fallback) == fr
    ensures Translated(t, key, En) && Translated(t, key, Fr)
  {
  }

  /** A key written as two dot-free parts. */
  lemma DottedKey(key: string, a: string, b: string)
    requires '.' !in a && '.' !in b && key == a + "." + b
    ensures Split(key, '.') == [a, b]
  {
    SplitDotted(a, b);
  }

  /** An entry of a namespace's texts is a leaf of the namespace. */
  lemma LeafOf(m: map<string, Texts>, k: string, en: string, fr: string)
    requires k in m && m[k] == Texts(en, fr)
    ensures k in Leaves(m) && Leaves(m)[k] == Leaf(en, fr)
  {
  }

  /** `nav.home` is a leaf of the site's `nav` namespace. */
  lemma NavHomeLeaf()
    ensures "home" in Nav && Nav["home"] == Leaf("Home", "Accueil")
  {
    LeafOf(NavTexts, "home", "Home", "Accueil");
  }

  /** `footer.contact` is a leaf of the site's `footer` namespace. */
  lemma FooterContactLeaf()
    ensures "contact" in Footer && Footer["contact"] == Leaf("Contact Us", "Contactez-nous")
  {
    LeafOf(FooterTexts, "contact", "Contact Us", "Contactez-nous");
  }

  /** `common.loading` is a leaf of the site's `common` namespace. */
  lemma CommonLoadingLeaf()
    ensures "loading" in Common && Common["loading"] == Leaf("Loading...", "Chargement...")
  {
    LeafOf(CommonTexts, "loading", "Loading...", "Chargement...");
  }

  /** `blog.pagination.next` is a leaf two levels below the site's `blog` namespace. */
  lemma BlogNextLeaf()
    ensures "pagination" in Blog && Blog["pagination"] == Obj(Pagination)
    ensures "next" in Pagination && Pagination["next"] == Leaf("Next", "Suivant")
  {
    LeafOf(PaginationTexts, "next", "Next", "Suivant");
  }

  /** The site's `nav` namespace has no `nonexistent` entry. */
  lemma NavLacksNonexistent()
    ensures "nonexistent" !in Nav
  {
  }

  /**
   * A two-part key naming a leaf of a namespace reads the leaf's strings in
   * both languages, and both are present.
   */
  lemma NamespaceLeafExample(t: Node, ns: Namespace, name: string, k: string, key: string, en: string, fr: string)
    requires WellFormed(t) && HasNamespace(t, name, ns)
    requires k in ns && ns[k] == Leaf(en, fr)
    requires Split(key, '.') == [name, k]
    ensures TranslationOf(t, key, En, "") == en && TranslationOf(t, key, Fr, "") == fr
    ensures Translated(t, key, En) && Translated(t, key, Fr)
  {
    WalkTwo(t, name, k);
    LeafTranslation(t, key, [name, k], en, fr, "");
  }

  /**
   * In a table whose `nav` namespace holds the site's `home` leaf, `nav.home`
   * reads "Home" in English and "Accueil" in French, and both are present.
   */
  lemma NavHomeExample(t: Node, nav: Namespace)
    requires WellFormed(t) && HasNamespace(t, "nav", nav)
    requires "home" in nav && nav["home"] == Leaf("Home", "Accueil")
    ensures TranslationOf(t, "nav.home", En, "") == "Home"
    ensures TranslationOf(t, "nav.home", Fr, "") == "Accueil"
    ensures Translated(t, "nav.home", En) && Translated(t, "nav.home", Fr)
  {
    DottedKey("nav.home", "nav", "home");
    NamespaceLeafExample(t, nav, "nav", "home", "nav.home", "Home", "Accueil");
  }

  /** `footer.contact` reads "Contact Us" and "Contactez-nous", and is present in English. */
  lemma FooterContactExample(t: Node, footer: Namespace)
    requires WellFormed(t) && HasNamespace(t, "footer", footer)
    requires "contact" in footer && footer["contact"] == Leaf("Contact Us", "Contactez-nous")
    ensures TranslationOf(t, "footer.contact", En, "") == "Contact Us"
    ensures TranslationOf(t, "footer.contact", Fr, "") == "Contactez-nous"
    ensures Translated(t, "footer.contact", En)
  {
    DottedKey("footer.contact", "footer", "contact");
    NamespaceLeafExample(t, footer, "footer", "contact", "footer.contact", "Contact Us", "Contactez-nous");
  }

  /** `common.loading` reads "Loading..." and "Chargement...". */
  lemma CommonLoadingExample(t: Node, common: Namespace)
    requires WellFormed(t) && HasNamespace(t, "common", common)
    requires "loading" in common && common["loading"] == Leaf("Loading...", "Chargement...")
    ensures TranslationOf(t, "common.loading", En, "") == "Loading..."
    ensures TranslationOf(t, "common.loading", Fr, "") == "Chargement..."
  {
    DottedKey("common.loading", "common", "loading");
    NamespaceLeafExample(t, common, "common", "loading", "common.loading", "Loading...", "Chargement...");
  }

  /** A key written as three dot-free parts. */
  lemma DottedKey3(key: string, a: string, b: string, c: string)
    requires '.' !in a && '.' !in b && '.' !in c && key == a + "." + b + "." + c
    ensures Split(key, '.') == [a, b, c]
  {
    SplitDotted3(a, b, c);
  }

  /** `blog.pagination.next` splits into its three parts. */
  lemma BlogNextKey()
    ensures Split("blog.pagination.next", '.') == ["blog", "pagination", "next"]
  {
    DottedKey3("blog.pagination.next", "blog", "pagination", "next");
  }

  /** A three-part key reaching a leaf reads the leaf's strings. */
  lemma NestedLeafExample(t: Node, ns: Namespace, sub: Namespace, name: string, a: string, b: string,
                          key: string, en: string, fr: string)
    requires WellFormed(t) && HasNamespace(t, name, ns)
    requires a in ns && ns[a] == Obj(sub) && b in sub && sub[b] == Leaf(en, fr)
    requires Split(key, '.') == [name, a, b]
    ensures TranslationOf(t, key, En, "") == en && TranslationOf(t, key, Fr, "") == fr
  {
    WalkThree(t, name, a, b);
    LeafTranslation(t, key, [name, a, b], en, fr, "");
  }

  /** A key three levels deep: `blog.pagination.next`. */
  lemma NestedKeyExample(t: Node, blog: Namespace, pagination: Namespace)
    requires WellFormed(t) && HasNamespace(t, "blog", blog)
    requires "pagination" in blog && blog["pagination"] == Obj(pagination)
    requires "next" in pagination && pagination["next"] == Leaf("Next", "Suivant")
    ensures TranslationOf(t, "blog.pagination.next", En, "") == "Next"
    ensures TranslationOf(t, "blog.pagination.next", Fr, "") == "Suivant"
  {
    BlogNextKey();
    NestedLeafExample(t, blog, pagination, "blog", "pagination", "next", "blog.pagination.next", "Next", "Suivant");
  }

  /** A two-part key whose namespace is not in the table gives the key itself or the fallback. */
  lemma MissingNamespaceExample(t: Node, name: string, k: string, key: string)
    requires WellFormed(t) && t.Obj? && name !in t.children
    requires Split(key, '.') == [name, k]
    ensures TranslationOf(t, key, Fr, "") == key && TranslationOf(t, key, En, "") == key
    ensures TranslationOf(t, key, En, "Default Text") == "Default Text"
    ensures !Translated(t, key, En)
  {
    WalkTwoMissing(t, name, k);
    MissingPathGivesFallbackOrKey(t, key, Fr, "");
    MissingPathGivesFallbackOrKey(t, key, En, "");
    MissingPathGivesFallbackOrKey(t, key, En, "Default Text");
  }

  /** `nonexistent` is not one of the six namespaces. */
  lemma NonexistentIsNoNamespace(t: Node)
    requires t.Obj? && t.children.Keys == NamespaceNames
    ensures "nonexistent" !in t.children
  {
    assert "nonexistent" !in NamespaceNames;
  }

  /**
   * In a table made of the six namespaces, a key outside them gives the key
   * itself in both languages, or the fallback when one is given, and is not
   * translated.
   */
  lemma UnknownKeyExample(t: Node)
    requires WellFormed(t) && t.Obj? && t.children.Keys == NamespaceNames
    ensures TranslationOf(t, "nonexistent.key", Fr, "") == "nonexistent.key"
    ensures TranslationOf(t, "nonexistent.key", En, "") == "nonexistent.key"
    ensures TranslationOf(t, "nonexistent.key", En, "Default Text") == "Default Text"
    ensures !Translated(t, "nonexistent.key", En)
  {
    DottedKey("nonexistent.key", "nonexistent", "key");
    NonexistentIsNoNamespace(t);
    MissingNamespaceExample(t, "nonexistent", "key", "nonexistent.key");
  }

  /** A two-part key whose namespace lacks the child gives the key itself and is not translated. */
  lemma MissingChildExample(t: Node, ns: Namespace, name: string, k: string, key: string)
    requires WellFormed(t) && HasNamespace(t, name, ns) && k !in ns
    requires Split(key, '.') == [name, k]
    ensures TranslationOf(t, key, En, "") == key
    ensures !Translated(t, key, En)
  {
    WalkTwoMissingChild(t, name, k);
    MissingPathGivesFallbackOrKey(t, key, En, "");
  }

  /** `nav.nonexistent` splits into its two parts. */
  lemma NavNonexistentKey()
    ensures Split("nav.nonexistent", '.') == ["nav", "nonexistent"]
  {
    DottedKey("nav.nonexistent", "nav", "nonexistent");
  }

  /** A known namespace with an unknown child is not translated. */
  lemma UnknownChildExample(t: Node, nav: Namespace)
    requires WellFormed(t) && HasNamespace(t, "nav", nav) && "nonexistent" !in nav
    ensures TranslationOf(t, "nav.nonexistent", En, "") == "nav.nonexistent"
    ensures !Translated(t, "nav.nonexistent", En)
  {
    NavNonexistentKey();
    MissingChildExample(t, nav, "nav", "nonexistent", "nav.nonexistent");
  }

  /** The strings one language has in an object of leaves. */
  function LeafTexts(m: map<string, Node>, l: Lang): (r: map<string, string>)
    ensures r.Keys == m.Keys
  {
    map k | k in m :: if m[k].Obj? && Code(l) in m[k].children && m[k].children[Code(l)].Str? then m[k].children[Code(l)].text else ""
  }

  /** A namespace made of leaves with both languages yields every leaf's string for the language asked. */
  lemma NamespaceOfLeaves(t: Node, ns: string, m: map<string, Node>, l: Lang)
    requires WellFormed(t)
    requires t.Obj? && ns in t.children && t.children[ns] == Obj(m)
    requires forall k | k in m :: IsLeaf(m[k])
    ensures NamespaceTranslationsOf(t, ns, l) == LeafTexts(m, l)
  {
    LeafEntries(m, l);
  }

  /** The entries of an object of leaves are its leaves' strings for the language asked. */
  lemma LeafEntries(m: map<string, Node>, l: Lang)
    requires forall k | k in m :: IsLeaf(m[k])
    ensures (forall k | k in m :: LeafShaped(m[k])) && ChildEntries(m, l) == LeafTexts(m, l)
  {
    forall k | k in m ensures LeafShaped(m[k]) && Entry(m[k], l) == Some(LeafTexts(m, l)[k]) {
      EntryOfLeaf(m[k], l);
    }
  }

  /** A leaf gives its own text for either language. */
  lemma EntryOfLeaf(n: Node, l: Lang)
    requires IsLeaf(n)
    ensures Code(l) in n.children && n.children[Code(l)].Str?
    ensures Entry(n, l) == Some(n.children[Code(l)].text)
  {
  }

  lemma NavLeaves()
    ensures forall k | k in Nav :: IsLeaf(Nav[k])
  {
    forall k | k in Nav ensures IsLeaf(Nav[k]) {
      var n := Nav[k];
      forall l: Lang ensures Code(l) in n.children && n.children[Code(l)].Str? {
        assert l == En || l == Fr;
      }
    }
  }

  lemma NavEnglishTexts()
    ensures LeafTexts(Nav, En) ==
              map["home" := "Home", "about" := "About", "partnerships" := "Partnerships",
                  "blog" := "Blog", "volunteer" := "Volunteer"]
  {
  }

  lemma NavFrenchTexts()
    ensures LeafTexts(Nav, Fr) ==
              map["home" := "Accueil", "about" := "À propos", "partnerships" := "Partenariats",
                  "blog" := "Blogue", "volunteer" := "Bénévole"]
  {
  }

  /** An unknown namespace gives nothing. */
  lemma UnknownNamespaceExample(t: Node)
    requires WellFormed(t) && t.Obj? && t.children.Keys == NamespaceNames
    ensures NamespaceTranslationsOf(t, "nonexistent", En) == map[]
  {
    assert "nonexistent" !in NamespaceNames;
  }

  /** The `nav` namespace in English. */
  lemma NavNamespaceExample(t: Node)
    requires WellFormed(t) && HasNamespace(t, "nav", Nav)
    ensures NamespaceTranslationsOf(t, "nav", En) ==
              map["home" := "Home", "about" := "About", "partnerships" := "Partnerships",
                  "blog" := "Blog", "volunteer" := "Volunteer"]
  {
    NavLeaves();
    NamespaceOfLeaves(t, "nav", Nav, En);
    NavEnglishTexts();
  }

  /** The `nav` namespace in French. */
  lemma NavNamespaceFrenchExample(t: Node)
    requires WellFormed(t) && HasNamespace(t, "nav", Nav)
    ensures NamespaceTranslationsOf(t, "nav", Fr) ==
              map["home" := "Accueil", "about" := "À propos", "partnerships" := "Partenariats",
                  "blog" := "Blogue", "volunteer" := "Bénévole"]
  {
    NavLeaves();
    NamespaceOfLeaves(t, "nav", Nav, Fr);
    NavFrenchTexts();
  }

  /** The site's own table meets the requirements of every example above. */
  lemma DefaultTableQualifies()
    ensures WellFormed(DefaultTable) && DefaultTable.Obj? && DefaultTable.children.Keys == NamespaceNames
    ensures HasNamespace(DefaultTable, "nav", Nav) && HasNamespace(DefaultTable, "footer", Footer)
    ensures HasNamespace(DefaultTable, "common", Common) && HasNamespace(DefaultTable, "blog", Blog)
  {
    DefaultTableWellFormed();
    NamespacesHold(Nav, Footer, Common, Blog, Volunteer, Meta);
  }

  /** The lookups the tests of `t` and `hasTranslation` expect to succeed, on the site's table. */
  lemma SiteLookupExamples()
    ensures WellFormed(DefaultTable)
    ensures TranslationOf(DefaultTable, "nav.home", En, "") == "Home"
    ensures TranslationOf(DefaultTable, "footer.contact", En, "") == "Contact Us"
    ensures TranslationOf(DefaultTable, "common.loading", En, "") == "Loading..."
    ensures TranslationOf(DefaultTable, "nav.home", Fr, "") == "Accueil"
    ensures TranslationOf(DefaultTable, "footer.contact", Fr, "") == "Contactez-nous"
    ensures TranslationOf(DefaultTable, "common.loading", Fr, "") == "Chargement..."
    ensures TranslationOf(DefaultTable, "blog.pagination.next", En, "") == "Next"
    ensures TranslationOf(DefaultTable, "blog.pagination.next", Fr, "") == "Suivant"
    ensures Translated(DefaultTable, "nav.home", En) && Translated(DefaultTable, "nav.home", Fr)
    ensures Translated(DefaultTable, "footer.contact", En)
  {
    DefaultTableQualifies();
    NavHomeLeaf();
    NavHomeExample(DefaultTable, Nav);
    FooterContactLeaf();
    FooterContactExample(DefaultTable, Footer);
    CommonLoadingLeaf();
    CommonLoadingExample(DefaultTable, Common);
    BlogNextLeaf();
    NestedKeyExample(DefaultTable, Blog, Pagination);
  }

  /** The lookups the tests expect to miss, and the namespace listings, on the site's table. */
  lemma SiteMissExamples()
    ensures WellFormed(DefaultTable)
    ensures TranslationOf(DefaultTable, "nonexistent.key", Fr, "") == "nonexistent.key"
    ensures TranslationOf(DefaultTable, "nonexistent.key", En, "Default Text") == "Default Text"
    ensures TranslationOf(DefaultTable, "nonexistent.key", En, "") == "nonexistent.key"
    ensures !Translated(DefaultTable, "nonexistent.key", En) && !Translated(DefaultTable, "nav.nonexistent", En)
    ensures NamespaceTranslationsOf(DefaultTable, "nonexistent", En) == map[]
  {
    DefaultTableQualifies();
    UnknownKeyExample(DefaultTable);
    NavLacksNonexistent();
    UnknownChildExample(DefaultTable, Nav);
    UnknownNamespaceExample(DefaultTable);
  }

  /** The `nav` listings the tests of `getNamespaceTranslations` expect, on the site's table. */
  lemma SiteNavListings()
    ensures WellFormed(DefaultTable)
    ensures NamespaceTranslationsOf(DefaultTable, "nav", En) ==
              map["home" := "Home", "about" := "About", "partnerships" := "Partnerships",
                  "blog" := "Blog", "volunteer" := "Volunteer"]
    ensures NamespaceTranslationsOf(DefaultTable, "nav", Fr) ==
              map["home" := "Accueil", "about" := "À propos", "partnerships" := "Partenariats",
                  "blog" := "Blogue", "volunteer" := "Bénévole"]
  {
    DefaultTableQualifies();
    NavNamespaceExample(DefaultTable);
    NavNamespaceFrenchExample(DefaultTable);
  }
}
